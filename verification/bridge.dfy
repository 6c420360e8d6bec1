/**
 * One pass of the firmware's main loop, which bridges the gs_usb port and
 * the CAN transceiver: configuration commands become transceiver settings,
 * frames from the host wait in the outbox until the transceiver takes them,
 * and frames for the host (received, echoed or failed) wait in the inbox
 * until the port takes them.
 */
module Bridge {
  import opened Bytes
  import opened Options
  import opened Frame
  import FX = FrameExt
  import E = ChannelEvents
  import Cfg = ChannelConfig
  import P = GsPort

  // ---------------------------------------------------------------------
  // Bit-rate quantisation

  /** The transceiver's bit-rate settings, slowest first. */
  datatype CanSpeed =
    | Kbps5 | Kbps10 | Kbps20 | Kbps31_25 | Kbps33_3 | Kbps40 | Kbps50
    | Kbps80 | Kbps100 | Kbps125 | Kbps200 | Kbps250 | Kbps500 | Kbps1000
  {
    /** Position in the order of increasing speed. */
    function Rank(): (k: nat)
      ensures k < |Bounds| + 1
    {
      match this
      case Kbps5 => 0
      case Kbps10 => 1
      case Kbps20 => 2
      case Kbps31_25 => 3
      case Kbps33_3 => 4
      case Kbps40 => 5
      case Kbps50 => 6
      case Kbps80 => 7
      case Kbps100 => 8
      case Kbps125 => 9
      case Kbps200 => 10
      case Kbps250 => 11
      case Kbps500 => 12
      case Kbps1000 => 13
    }
  }

  /** Upper bound of each bucket but the last, in the order of `Rank`. */
  const Bounds: seq<nat> :=
    [5000, 10000, 20000, 31250, 33300, 40000, 50000, 80000, 100000, 125000, 200000, 250000, 500000]

  /** The bounds increase strictly. */
  lemma BoundsIncrease(i: nat, j: nat)
    requires i < j < |Bounds|
    ensures Bounds[i] < Bounds[j]
  {
  }

  /**
   * The range match of `can_speed_from_bit_rate` applied to `v`: the first
   * bucket whose bound is at least `v`, and Kbps1000 above the last bound.
   */
  function SpeedForValue(v: nat): (s: CanSpeed)
    ensures s.Rank() < |Bounds| ==> v <= Bounds[s.Rank()]
    ensures 0 < s.Rank() ==> Bounds[s.Rank() - 1] < v
  {
    if v <= 5000 then Kbps5
    else if v <= 10000 then Kbps10
    else if v <= 20000 then Kbps20
    else if v <= 31250 then Kbps31_25
    else if v <= 33300 then Kbps33_3
    else if v <= 40000 then Kbps40
    else if v <= 50000 then Kbps50
    else if v <= 80000 then Kbps80
    else if v <= 100000 then Kbps100
    else if v <= 125000 then Kbps125
    else if v <= 200000 then Kbps200
    else if v <= 250000 then Kbps250
    else if v <= 500000 then Kbps500
    else Kbps1000
  }

  /** A larger value never selects a slower bucket. */
  lemma SpeedForValueMonotone(a: nat, b: nat)
    requires a <= b
    ensures SpeedForValue(a).Rank() <= SpeedForValue(b).Rank()
  {
    var i, j := SpeedForValue(a).Rank(), SpeedForValue(b).Rank();
    if i > j {
      BoundsIncrease(j, i - 1);
    }
  }

  /** `can_speed_from_bit_rate` as written: the bounds are compared with the rate in kbit/s. */
  function CanSpeedFromBitRateAsWritten(rate: u32): (s: CanSpeed)
    ensures s.Rank() < |Bounds| ==> rate / 1000 <= Bounds[s.Rank()]
    ensures 0 < s.Rank() ==> Bounds[s.Rank() - 1] < rate / 1000
  {
    SpeedForValue(rate / 1000)
  }

  /** The intended quantisation: the rate in bit/s against bounds in bit/s. */
  function CanSpeedFromBitRate(rate: u32): (s: CanSpeed)
    ensures s.Rank() < |Bounds| ==> rate <= Bounds[s.Rank()]
    ensures 0 < s.Rank() ==> Bounds[s.Rank() - 1] < rate
  {
    SpeedForValue(rate)
  }

  /** As written, every rate below 5,001,000 bit/s selects 5 kbit/s. */
  lemma AsWrittenCollapses(rate: u32)
    requires rate < 5_001_000
    ensures CanSpeedFromBitRateAsWritten(rate) == Kbps5
  {
  }

  /** 111,111 bit/s: 5 kbit/s as written, 125 kbit/s as intended. */
  lemma QuantisationExample()
    ensures CanSpeedFromBitRateAsWritten(111_111) == Kbps5
    ensures CanSpeedFromBitRate(111_111) == Kbps125
  {
  }

  /** Both quantisations are monotone in the rate. */
  lemma QuantisationMonotone(a: u32, b: u32)
    requires a <= b
    ensures CanSpeedFromBitRate(a).Rank() <= CanSpeedFromBitRate(b).Rank()
    ensures CanSpeedFromBitRateAsWritten(a).Rank() <= CanSpeedFromBitRateAsWritten(b).Rank()
  {
    SpeedForValueMonotone(a, b);
    SpeedForValueMonotone(a / 1000, b / 1000);
  }

  // ---------------------------------------------------------------------
  // Operating mode

  /** The transceiver modes the loop selects. */
  datatype OpMode = Normal | Sleep | Loopback | ListenOnly

  /** The selection the loop makes: off wins, then listen-only, then loopback. */
  function OpModePriority(m: E.ChannelMode): OpMode {
    if !m.IsOn() then Sleep
    else if m.flags.IsSet(E.ListenOnly) then ListenOnly
    else if m.flags.IsSet(E.Loopback) then Loopback
    else Normal
  }

  /** The mode selection of the loop: successive overrides of a mutable choice. */
  method SelectOpMode(m: E.ChannelMode) returns (mode: OpMode)
    ensures mode == OpModePriority(m)
    ensures mode == Sleep <==> !m.IsOn()
    ensures mode == ListenOnly <==> m.IsOn() && m.flags.IsSet(E.ListenOnly)
    ensures mode == Loopback <==> m.IsOn() && !m.flags.IsSet(E.ListenOnly) && m.flags.IsSet(E.Loopback)
  {
    mode := Normal;
    if m.flags.IsSet(E.Loopback) {
      mode := Loopback;
    }
    if m.flags.IsSet(E.ListenOnly) {
      mode := ListenOnly;
    }
    if !m.IsOn() {
      mode := Sleep;
    }
  }

  /** The other reading of the two flags, loopback before listen-only. */
  function LoopbackFirst(m: E.ChannelMode): OpMode {
    if !m.IsOn() then Sleep
    else if m.flags.IsSet(E.Loopback) then Loopback
    else if m.flags.IsSet(E.ListenOnly) then ListenOnly
    else Normal
  }

  /** The two orders disagree exactly when the channel is on with both flags set. */
  lemma PriorityOrdersDiffer(m: E.ChannelMode)
    ensures OpModePriority(m) != LoopbackFirst(m) <==>
      m.IsOn() && m.flags.IsSet(E.ListenOnly) && m.flags.IsSet(E.Loopback)
  {
  }

  // ---------------------------------------------------------------------
  // Configuration commands

  /** What a configuration command asks of the transceiver. */
  datatype Action = NoAction | SetBitrate(speed: CanSpeed) | SetMode(mode: OpMode) | Halt

  /**
   * The loop's reaction to a command: bit timing sets the quantised rate of
   * the channel's clock (halting where the rate computation panics), mode
   * sets the selected mode, the others do nothing.
   */
  function EventAction(ev: E.ChannelEvent, channels: seq<Cfg.Channel>): (a: Action)
    requires ev.channel < |channels|
    ensures ev.BitTimingEvent? ==>
      var rate := E.BitRate(ev.timing, channels[ev.channel].fclkCan);
      a == if rate.None? then Halt else SetBitrate(CanSpeedFromBitRate(rate.value))
    ensures ev.ModeEvent? ==> a == SetMode(OpModePriority(ev.mode))
    ensures ev.DataBitTimingEvent? || ev.IdentifyEvent? ==> a == NoAction
    ensures a == Halt ==> ev.BitTimingEvent? && (ev.timing.brp == 0 || E.Quanta(ev.timing) > U32_MAX)
  {
    match ev
    case BitTimingEvent(t, ch) =>
      var rate := E.BitRate(t, channels[ch].fclkCan);
      if rate.None? then Halt else SetBitrate(CanSpeedFromBitRate(rate.value))
    case DataBitTimingEvent(_, _) => NoAction
    case ModeEvent(m, _) => SetMode(OpModePriority(m))
    case IdentifyEvent(_, _) => NoAction
  }

  /**
   * The reaction to a command as the loop is written: the same, except that
   * bit timing sets the bucket of the rate in kbit/s.
   */
  function EventActionAsWritten(ev: E.ChannelEvent, channels: seq<Cfg.Channel>): (a: Action)
    requires ev.channel < |channels|
    ensures ev.BitTimingEvent? ==>
      var rate := E.BitRate(ev.timing, channels[ev.channel].fclkCan);
      a == if rate.None? then Halt else SetBitrate(CanSpeedFromBitRateAsWritten(rate.value))
    ensures !ev.BitTimingEvent? ==> a == EventAction(ev, channels)
  {
    match ev
    case BitTimingEvent(t, ch) =>
      var rate := E.BitRate(t, channels[ch].fclkCan);
      if rate.None? then Halt else SetBitrate(CanSpeedFromBitRateAsWritten(rate.value))
    case _ => EventAction(ev, channels)
  }

  /**
   * The two reactions differ only in the speed they set, and do differ: the
   * 111,111 bit/s timing of an 8 MHz channel sets 5 kbit/s as written and
   * 125 kbit/s as intended.
   */
  lemma EventActionsDiffer(ev: E.ChannelEvent, channels: seq<Cfg.Channel>)
    requires ev.channel < |channels|
    ensures EventActionAsWritten(ev, channels).SetBitrate? <==> EventAction(ev, channels).SetBitrate?
    ensures !EventAction(ev, channels).SetBitrate? ==> EventActionAsWritten(ev, channels) == EventAction(ev, channels)
    ensures ev == E.BitTimingEvent(E.BitTiming(3, 3, 2, 1, 8), ev.channel) && channels[ev.channel].fclkCan == 8_000_000 ==>
      EventActionAsWritten(ev, channels) == SetBitrate(Kbps5) && EventAction(ev, channels) == SetBitrate(Kbps125)
  {
    if ev == E.BitTimingEvent(E.BitTiming(3, 3, 2, 1, 8), ev.channel) && channels[ev.channel].fclkCan == 8_000_000 {
      E.BitRateExample();
      QuantisationExample();
    }
  }

  // ---------------------------------------------------------------------
  // Queues

  /** Capacity of the inbox and the outbox. */
  const Capacity: nat := 8

  /** Appends at the tail; a full queue first loses its oldest entry. */
  function Push(q: seq<HostFrame>, f: HostFrame): (r: seq<HostFrame>)
    requires |q| <= Capacity
    ensures 0 < |r| <= Capacity && r[|r| - 1] == f
    ensures |q| < Capacity ==> r == q + [f]
    ensures |q| == Capacity ==> r == q[1..] + [f]
  {
    if |q| < Capacity then q + [f] else q[1..] + [f]
  }

  /** Removes the head, if any. */
  function Skip(q: seq<HostFrame>): (r: seq<HostFrame>)
    ensures q == [] ==> r == []
    ensures q != [] ==> [q[0]] + r == q
  {
    if q == [] then [] else q[1..]
  }

  /** The transceiver's answer to a send. */
  datatype SendResult = SendOk | TxBusy | NewModeTimeout | SendFailed

  /** The frame returned to the host when sending failed: the same frame with Overflow set. */
  function Overflowed(f: HostFrame): (e: HostFrame)
    ensures e.flags.IsSet(Overflow)
    ensures forall b: FlagBit :: b != Overflow ==> (e.flags.IsSet(b) <==> f.flags.IsSet(b))
    ensures e.echoId == f.echoId && e.canId == f.canId && e.canDlc == f.canDlc
    ensures e.channel == f.channel && e.reserved == f.reserved && e.bytes == f.bytes
  {
    f.(flags := f.flags.Set(Overflow))
  }

  /** The inbox and outbox together. */
  datatype Queues = Queues(inbox: seq<HostFrame>, outbox: seq<HostFrame>)

  predicate Bounded(q: Queues) {
    |q.inbox| <= Capacity && |q.outbox| <= Capacity
  }

  /**
   * The outbox stage. A head that does not translate is dropped. A sent
   * head moves unchanged to the inbox; a busy or timed-out transceiver
   * leaves both queues alone; any other failure moves the head to the inbox
   * with Overflow set.
   */
  function OutboxStep(q: Queues, result: SendResult): (r: Queues)
    requires Bounded(q)
    ensures Bounded(r)
    ensures q.outbox == [] ==> r == q
    ensures q.outbox != [] && FX.FromHostFrame(q.outbox[0]).None? ==> r == Queues(q.inbox, q.outbox[1..])
    ensures q.outbox != [] && FX.FromHostFrame(q.outbox[0]).Some? ==>
      match result
      case SendOk => r == Queues(Push(q.inbox, q.outbox[0]), q.outbox[1..])
      case TxBusy => r == q
      case NewModeTimeout => r == q
      case SendFailed => r == Queues(Push(q.inbox, Overflowed(q.outbox[0])), q.outbox[1..])
  {
    if q.outbox == [] then q
    else
      var head := q.outbox[0];
      if FX.FromHostFrame(head).None? then Queues(q.inbox, Skip(q.outbox))
      else
        match result
        case SendOk => Queues(Push(q.inbox, head), Skip(q.outbox))
        case TxBusy => q
        case NewModeTimeout => q
        case SendFailed => Queues(Push(q.inbox, Overflowed(head)), Skip(q.outbox))
  }

  /** A frame leaving the outbox is never lost while the inbox has room: it reaches the inbox's tail. */
  lemma OutboxHeadReachesInbox(q: Queues, result: SendResult)
    requires Bounded(q) && q.outbox != [] && FX.FromHostFrame(q.outbox[0]).Some?
    requires result == SendOk || result == SendFailed
    requires |q.inbox| < Capacity
    ensures var r := OutboxStep(q, result);
            |r.inbox| == |q.inbox| + 1 && r.inbox[..|q.inbox|] == q.inbox
            && (result == SendOk ==> r.inbox[|q.inbox|] == q.outbox[0])
            && (result == SendFailed ==> r.inbox[|q.inbox|] == Overflowed(q.outbox[0]))
  {
  }


  /**
   * The USB half of a pass, after the stack reported activity: a frame read
   * from the port joins the outbox, and the inbox head leaves when the port
   * took it.
   */
  function HostStage(q: Queues, fromHost: Option<HostFrame>, headTaken: bool): (r: Queues)
    requires Bounded(q)
    ensures Bounded(r)
    ensures fromHost.None? ==> r.outbox == q.outbox
    ensures fromHost.Some? ==> r.outbox == Push(q.outbox, fromHost.value)
    ensures headTaken ==> r.inbox == Skip(q.inbox)
    ensures !headTaken ==> r.inbox == q.inbox
  {
    Queues(if headTaken then Skip(q.inbox) else q.inbox,
           if fromHost.Some? then Push(q.outbox, fromHost.value) else q.outbox)
  }

  /**
   * The transceiver half of a pass: a received frame joins the inbox as a
   * channel-1 frame, then the outbox stage.
   */
  function DeviceStage(q: Queues, received: Option<FX.ClassicFrame>, result: SendResult): (r: Queues)
    requires Bounded(q)
    ensures Bounded(r)
    ensures received.None? ==> r == OutboxStep(q, result)
    ensures received.Some? ==> r == OutboxStep(Queues(Push(q.inbox, FX.ToHostFrame(received.value, 1)), q.outbox), result)
  {
    var inbox := if received.Some? then Push(q.inbox, FX.ToHostFrame(received.value, 1)) else q.inbox;
    OutboxStep(Queues(inbox, q.outbox), result)
  }

  /**
   * A received frame is handed to the host on channel 1, whatever channel
   * the port serves: it is in the inbox after the pass, whatever the outbox
   * held and the transceiver answered.
   */
  lemma ReceivedOnChannelOne(q: Queues, f: FX.ClassicFrame, result: SendResult)
    requires Bounded(q)
    ensures var r := DeviceStage(q, Some(f), result);
            FX.ToHostFrame(f, 1) in r.inbox && FX.ToHostFrame(f, 1).channel == 1
  {
    var g := FX.ToHostFrame(f, 1);
    var q' := Queues(Push(q.inbox, g), q.outbox);
    assert g in q'.inbox;
    OutboxStepKeepsInbox(q', result, g);
  }

  /** The outbox stage only appends to the inbox: the newest inbox entry survives it. */
  lemma OutboxStepKeepsInbox(q: Queues, result: SendResult, g: HostFrame)
    requires Bounded(q) && q.inbox != [] && q.inbox[|q.inbox| - 1] == g
    ensures g in OutboxStep(q, result).inbox
  {
    var r := OutboxStep(q, result);
    if r.inbox != q.inbox {
      var x :| r.inbox == Push(q.inbox, x);
      PushKeepsNewest(q.inbox, x);
    }
  }

  /** Pushing onto a nonempty queue keeps its newest entry. */
  lemma PushKeepsNewest(q: seq<HostFrame>, x: HostFrame)
    requires 0 < |q| <= Capacity
    ensures q[|q| - 1] in Push(q, x)
  {
    var r := Push(q, x);
    assert r[|r| - 2] == q[|q| - 1];
  }

  /** A translatable frame from the host that the transceiver accepts comes back to the host unchanged, as its echo. */
  lemma HostFrameEchoed(q: Queues, f: HostFrame)
    requires Bounded(q) && q.outbox == [] && |q.inbox| < Capacity
    requires FX.FromHostFrame(f).Some?
    ensures var r := DeviceStage(HostStage(q, Some(f), false), None, SendOk);
            r.outbox == [] && r.inbox == q.inbox + [f]
  {
  }

  // ---------------------------------------------------------------------
  // The loop state

  class Firmware {
    const port: P.GsUsbPort
    var inbox: seq<HostFrame>
    var outbox: seq<HostFrame>

    ghost predicate Valid()
      reads this, port, port.underlying
    {
      port.Valid() && |inbox| <= Capacity && |outbox| <= Capacity
    }

    constructor (port: P.GsUsbPort)
      requires port.Valid()
      ensures Valid() && this.port == port && inbox == [] && outbox == []
    {
      this.port := port;
      inbox := [];
      outbox := [];
    }

    /**
     * One pass of the loop, after the USB stack's poll returned `usbActive`.
     * `received` is what the transceiver had; `result` its answer to a send.
     * Returns the transceiver action and the frame handed to it. A Halt
     * stops the pass where the firmware would panic.
     */
    method Pass(usbActive: bool, received: Option<FX.ClassicFrame>, result: SendResult)
      returns (action: Action, submitted: Option<FX.ClassicFrame>)
      requires Valid()
      modifies this, port, port.underlying`controlEvent, port.writeBuffer
      ensures Valid()
      ensures !usbActive ==> action == NoAction
      ensures usbActive && old(port.underlying.controlEvent).Some? ==>
        action == EventAction(old(port.underlying.controlEvent).value, port.underlying.channels)
      ensures usbActive && old(port.underlying.controlEvent).None? ==> action == NoAction
      ensures action == Halt ==> inbox == old(inbox) && outbox == old(outbox) && submitted.None?
      ensures action != Halt ==>
        var o := HostStage(
          Queues(old(inbox), old(outbox)),
          if usbActive && old(port.readState).Full? then Some(DecodeFrame(old(port.readBuffer[..])).value) else None,
          usbActive && old(inbox) != [] && old(port.writeState).Ready?).outbox;
        submitted == (if o == [] then None else FX.FromHostFrame(o[0]))
      ensures action != Halt ==>
        Queues(inbox, outbox) == DeviceStage(HostStage(
          Queues(old(inbox), old(outbox)),
          if usbActive && old(port.readState).Full? then Some(DecodeFrame(old(port.readBuffer[..])).value) else None,
          usbActive && old(inbox) != [] && old(port.writeState).Ready?),
          received, result)
      ensures usbActive ==> port.underlying.controlEvent == None
      ensures !usbActive || action == Halt ==>
        port.underlying.controlEvent == (if usbActive then None else old(port.underlying.controlEvent))
        && port.readState == old(port.readState) && port.writeState == old(port.writeState)
        && port.writeBuffer[..] == old(port.writeBuffer[..])
      ensures usbActive && action != Halt ==>
        port.readState == (if old(port.readState).Full? then P.Empty else old(port.readState))
      ensures usbActive && action != Halt ==>
        port.writeState == (if old(inbox) != [] && old(port.writeState).Ready? then P.Writing(FrameSize) else old(port.writeState))
      ensures usbActive && action != Halt ==>
        port.writeBuffer[..] == (if old(inbox) != [] && old(port.writeState).Ready? then EncodeFrame(old(inbox)[0]) else old(port.writeBuffer[..]))
    {
      submitted := None;
      action := NoAction;
      if usbActive {
        action := ServiceHost();
        if action == Halt {
          return;
        }
      }
      submitted := ServiceDevice(received, result);
    }

    /**
     * The USB half: the pending command, a frame from the host into the
     * outbox, the inbox head to the host.
     */
    method ServiceHost() returns (action: Action)
      requires Valid()
      modifies this`outbox, this`inbox, port, port.underlying`controlEvent, port.writeBuffer
      ensures Valid()
      ensures old(port.underlying.controlEvent).Some? ==>
        action == EventAction(old(port.underlying.controlEvent).value, port.underlying.channels)
      ensures old(port.underlying.controlEvent).None? ==> action == NoAction
      ensures action == Halt ==> inbox == old(inbox) && outbox == old(outbox)
      ensures action != Halt ==>
        Queues(inbox, outbox) == HostStage(
          Queues(old(inbox), old(outbox)),
          if old(port.readState).Full? then Some(DecodeFrame(old(port.readBuffer[..])).value) else None,
          old(inbox) != [] && old(port.writeState).Ready?)
      ensures port.underlying.controlEvent == None
      ensures action == Halt ==>
        port.readState == old(port.readState) && port.writeState == old(port.writeState)
        && port.writeBuffer[..] == old(port.writeBuffer[..])
      ensures action != Halt ==>
        port.readState == (if old(port.readState).Full? then P.Empty else old(port.readState))
      ensures action != Halt ==>
        port.writeState == (if old(inbox) != [] && old(port.writeState).Ready? then P.Writing(FrameSize) else old(port.writeState))
      ensures action != Halt ==>
        port.writeBuffer[..] == (if old(inbox) != [] && old(port.writeState).Ready? then EncodeFrame(old(inbox)[0]) else old(port.writeBuffer[..]))
    {
      action := HandleCommand();
      if action == Halt {
        return;
      }
      TransferFrames();
    }

    /** Takes the pending configuration command, if any, and returns the transceiver's reaction to it. */
    method HandleCommand() returns (action: Action)
      requires Valid()
      modifies port.underlying`controlEvent
      ensures Valid()
      ensures old(port.underlying.controlEvent).Some? ==>
        action == EventAction(old(port.underlying.controlEvent).value, port.underlying.channels)
      ensures old(port.underlying.controlEvent).None? ==> action == NoAction
      ensures port.underlying.controlEvent == None
    {
      action := NoAction;
      var ev := port.ReadControlEvent();
      if ev.Some? {
        action := EventAction(ev.value, port.underlying.channels);
        if ev.value.ModeEvent? {
          var mode := SelectOpMode(ev.value.mode);
          assert action == SetMode(mode);
        }
      }
    }

    /** A completed host frame into the outbox, then the inbox head to the host when the IN endpoint is free. */
    method TransferFrames()
      requires Valid()
      modifies this`outbox, this`inbox, port, port.writeBuffer
      ensures Valid()
      ensures Queues(inbox, outbox) == HostStage(
          Queues(old(inbox), old(outbox)),
          if old(port.readState).Full? then Some(DecodeFrame(old(port.readBuffer[..])).value) else None,
          old(inbox) != [] && old(port.writeState).Ready?)
      ensures port.readState == (if old(port.readState).Full? then P.Empty else old(port.readState))
      ensures port.writeState == (if old(inbox) != [] && old(port.writeState).Ready? then P.Writing(FrameSize) else old(port.writeState))
      ensures port.writeBuffer[..] == (if old(inbox) != [] && old(port.writeState).Ready? then EncodeFrame(old(inbox)[0]) else old(port.writeBuffer[..]))
    {
      var readResult := port.ReadFrame();
      if readResult.FrameRead? {
        outbox := Push(outbox, readResult.frame);
      }

      if inbox != [] {
        var writeResult := port.WriteFrame(inbox[0]);
        if writeResult == P.FrameQueued {
          inbox := Skip(inbox);
        }
      }
    }

    /**
     * The transceiver half: a received frame into the inbox, the outbox head
     * to the transceiver. Returns the frame submitted, if the head translated.
     */
    method ServiceDevice(received: Option<FX.ClassicFrame>, result: SendResult)
      returns (submitted: Option<FX.ClassicFrame>)
      requires Valid()
      modifies this`outbox, this`inbox
      ensures Valid()
      ensures Queues(inbox, outbox) == DeviceStage(Queues(old(inbox), old(outbox)), received, result)
      ensures old(outbox) == [] ==> submitted.None?
      ensures old(outbox) != [] ==> submitted == FX.FromHostFrame(old(outbox)[0])
    {
      submitted := None;
      if received.Some? {
        inbox := Push(inbox, FX.ToHostFrame(received.value, 1));
      }

      if outbox != [] {
        var head := outbox[0];
        submitted := FX.FromHostFrame(head);
        if submitted.Some? {
          match result
          case SendOk =>
            outbox := Skip(outbox);
            inbox := Push(inbox, head);
          case TxBusy =>
          case NewModeTimeout =>
          case SendFailed =>
            outbox := Skip(outbox);
            inbox := Push(inbox, Overflowed(head));
        } else {
          outbox := Skip(outbox);
        }
      }
    }
  }
}
