/**
 * The gs_usb control-transfer handler: the vendor request codes, the
 * setup-packet filter of section 9.3 of USB 2.0, the single-slot mailbox
 * that carries a decoded configuration command to the application, and the
 * DeviceConfig, BtConst and BtConstExt replies.
 */
module GsClass {
  import opened Bytes
  import opened Options
  import Cfg = ChannelConfig
  import E = ChannelEvents

  // ---------------------------------------------------------------------
  // Request codes

  datatype GsUsbRequest =
    | HostFormat | BitTiming | Mode | Berr | BtConst | DeviceConfig
    | Timestamp | Identify | GetUserId | SetUserId | DataBitTiming | BtConstExt
  {
    /** The `bRequest` code of the request. */
    function Code(): (c: u8)
      ensures c <= 11
    {
      match this
      case HostFormat => 0
      case BitTiming => 1
      case Mode => 2
      case Berr => 3
      case BtConst => 4
      case DeviceConfig => 5
      case Timestamp => 6
      case Identify => 7
      case GetUserId => 8
      case SetUserId => 9
      case DataBitTiming => 10
      case BtConstExt => 11
    }
  }

  /** Highest request code. */
  const MaxCode: u8 := 11

  /** `GsUsbRequest::from_raw`: None above the highest code, otherwise the request with that code. */
  function FromRaw(raw: u8): (r: Option<GsUsbRequest>)
    ensures r.None? <==> raw > MaxCode
    ensures r.Some? ==> r.value.Code() == raw
  {
    if raw > MaxCode then None
    else
      Some([GsUsbRequest.HostFormat, GsUsbRequest.BitTiming, GsUsbRequest.Mode, GsUsbRequest.Berr,
            GsUsbRequest.BtConst, GsUsbRequest.DeviceConfig, GsUsbRequest.Timestamp,
            GsUsbRequest.Identify, GsUsbRequest.GetUserId, GsUsbRequest.SetUserId,
            GsUsbRequest.DataBitTiming, GsUsbRequest.BtConstExt][raw])
  }

  /** Every request is recovered from its code. */
  lemma FromRawCode(q: GsUsbRequest)
    ensures FromRaw(q.Code()) == Some(q)
  {
  }

  // ---------------------------------------------------------------------
  // Setup packet

  datatype RequestType = StandardType | ClassType | VendorType | ReservedType
  datatype Recipient = DeviceRecipient | InterfaceRecipient | EndpointRecipient | OtherRecipient

  /** The fields of a setup packet the handler looks at. */
  datatype Request = Request(requestType: RequestType, recipient: Recipient, request: u8, value: u16, index: u16)

  /** The handler answers only vendor requests addressed to its own interface. */
  function InScope(req: Request, commIf: u8): (scoped: bool)
    ensures scoped ==> req.requestType == VendorType && req.recipient == InterfaceRecipient
    ensures scoped ==> req.index < 0x100 && req.index == commIf
    ensures req.requestType != VendorType || req.recipient != InterfaceRecipient || req.index != commIf ==> !scoped
  {
    req.requestType == VendorType && req.recipient == InterfaceRecipient && req.index == commIf
  }

  /** What the handler does with a control transfer. */
  datatype ControlResponse = Ignored | Accepted(data: seq<u8>) | Rejected

  // ---------------------------------------------------------------------
  // Configuration commands (host to device)

  /** The requests that carry a configuration command for one channel. */
  predicate IsCommand(q: GsUsbRequest) {
    q == GsUsbRequest.BitTiming || q == GsUsbRequest.DataBitTiming
    || q == GsUsbRequest.Mode || q == GsUsbRequest.Identify
  }

  /** Bytes a command's payload must hold. */
  function CommandSize(q: GsUsbRequest): nat
    requires IsCommand(q)
  {
    match q
    case BitTiming => E.BitTimingSize
    case DataBitTiming => E.BitTimingSize
    case Mode => E.ModeSize
    case Identify => E.IdentifySize
  }

  /** The request code that carries an event. */
  function EventRequest(e: E.ChannelEvent): (q: GsUsbRequest)
    ensures IsCommand(q)
  {
    match e
    case BitTimingEvent(_, _) => GsUsbRequest.BitTiming
    case DataBitTimingEvent(_, _) => GsUsbRequest.DataBitTiming
    case ModeEvent(_, _) => GsUsbRequest.Mode
    case IdentifyEvent(_, _) => GsUsbRequest.Identify
  }

  /** The payload the host sends for an event. */
  function EventPayload(e: E.ChannelEvent): (b: seq<u8>)
    ensures |b| == CommandSize(EventRequest(e))
  {
    match e
    case BitTimingEvent(t, _) => E.EncodeBitTiming(t)
    case DataBitTimingEvent(t, _) => E.EncodeBitTiming(t)
    case ModeEvent(m, _) => E.EncodeMode(m)
    case IdentifyEvent(i, _) => E.EncodeIdentify(i)
  }

  /**
   * The event an in-scope OUT request decodes to: a command for an existing
   * channel whose payload is long enough; None for anything else.
   */
  function DecodeOutEvent(q: Option<GsUsbRequest>, channel: nat, data: seq<u8>, channelCount: nat)
    : (r: Option<E.ChannelEvent>)
    ensures r.Some? <==>
      q.Some? && IsCommand(q.value) && channel < channelCount && |data| >= CommandSize(q.value)
    ensures r.Some? ==> r.value.channel == channel && EventRequest(r.value) == q.value
    ensures r.Some? ==> EventPayload(r.value) == data[..CommandSize(q.value)]
  {
    if q.None? || !IsCommand(q.value) || channel >= channelCount then None
    else
      match q.value
      case BitTiming =>
        if |data| < E.BitTimingSize then None
        else E.EncodeDecodeBitTiming(data); Some(E.BitTimingEvent(E.DecodeBitTiming(data).value, channel))
      case DataBitTiming =>
        if |data| < E.BitTimingSize then None
        else E.EncodeDecodeBitTiming(data); Some(E.DataBitTimingEvent(E.DecodeBitTiming(data).value, channel))
      case Mode =>
        if |data| < E.ModeSize then None
        else
          var m := E.DecodeMode(data).value;
          LE32OfReadLE32(data, 0);
          LE32OfReadLE32(data, 4);
          assert data[..E.ModeSize] == data[0..4] + data[4..8];
          Some(E.ModeEvent(m, channel))
      case Identify =>
        if |data| < E.IdentifySize then None
        else LE32OfReadLE32(data, 0); Some(E.IdentifyEvent(E.DecodeIdentify(data).value, channel))
  }

  /** The handler decodes exactly the event the host encoded, whatever follows the payload. */
  lemma DecodeOutEventOfPayload(e: E.ChannelEvent, extra: seq<u8>, channelCount: nat)
    requires e.channel < channelCount
    ensures DecodeOutEvent(Some(EventRequest(e)), e.channel, EventPayload(e) + extra, channelCount) == Some(e)
  {
    var data := EventPayload(e) + extra;
    var r := DecodeOutEvent(Some(EventRequest(e)), e.channel, data, channelCount);
    assert data[..|EventPayload(e)|] == EventPayload(e);
    match e
    case BitTimingEvent(t, _) =>
      E.DecodeEncodeBitTiming(t);
      assert E.EncodeBitTiming(r.value.timing) == E.EncodeBitTiming(t);
      assert E.DecodeBitTiming(E.EncodeBitTiming(r.value.timing)) == Some(r.value.timing) by {
        E.DecodeEncodeBitTiming(r.value.timing);
      }
    case DataBitTimingEvent(t, _) =>
      E.DecodeEncodeBitTiming(t);
      assert E.DecodeBitTiming(E.EncodeBitTiming(r.value.timing)) == Some(r.value.timing) by {
        E.DecodeEncodeBitTiming(r.value.timing);
      }
    case ModeEvent(m, _) =>
      E.DecodeEncodeMode(m);
      assert E.DecodeMode(E.EncodeMode(r.value.mode)) == Some(r.value.mode) by {
        E.DecodeEncodeMode(r.value.mode);
      }
    case IdentifyEvent(i, _) =>
      E.DecodeEncodeIdentify(i);
      assert E.DecodeIdentify(E.EncodeIdentify(r.value.identify)) == Some(r.value.identify) by {
        E.DecodeEncodeIdentify(r.value.identify);
      }
  }

  /** New mailbox content and transfer response of `control_out`. */
  datatype OutStep = OutStep(event: Option<E.ChannelEvent>, response: ControlResponse)

  /**
   * `control_out`: out-of-scope requests are ignored and HostFormat is
   * accepted, both leaving the mailbox alone; every other request replaces
   * the mailbox with its decoded event, or with None, and is accepted exactly
   * when an event was decoded.
   */
  function ControlOutStep(pending: Option<E.ChannelEvent>, req: Request, data: seq<u8>,
                          commIf: u8, channelCount: nat): (r: OutStep)
    ensures !InScope(req, commIf) ==> r == OutStep(pending, Ignored)
    ensures InScope(req, commIf) && FromRaw(req.request) == Some(GsUsbRequest.HostFormat) ==>
      r == OutStep(pending, Accepted([]))
    ensures InScope(req, commIf) && FromRaw(req.request) != Some(GsUsbRequest.HostFormat) ==>
      r.event == DecodeOutEvent(FromRaw(req.request), req.value, data, channelCount)
      && (r.response == Accepted([]) <==> r.event.Some?)
      && (r.response == Rejected <==> r.event.None?)
  {
    if !InScope(req, commIf) then OutStep(pending, Ignored)
    else
      var q := FromRaw(req.request);
      if q == Some(GsUsbRequest.HostFormat) then OutStep(pending, Accepted([]))
      else
        var ev := DecodeOutEvent(q, req.value, data, channelCount);
        OutStep(ev, if ev.Some? then Accepted([]) else Rejected)
  }

  // ---------------------------------------------------------------------
  // Replies (device to host)

  /** The device configuration reply. */
  datatype DeviceConfig = DeviceConfig(icount: u8, swVersion: u32, hwVersion: u32)

  /** Size of the device configuration reply. */
  const DeviceConfigSize: nat := 12

  /** The `Pwrite` layout: three reserved zero bytes, `icount`, then both versions little-endian. */
  function DeviceConfigLayout(c: DeviceConfig): (b: seq<u8>)
    ensures |b| == DeviceConfigSize
  {
    [0, 0, 0, c.icount] + LE32(c.swVersion) + LE32(c.hwVersion)
  }

  /** The host reads back the channel count minus one and both versions. */
  lemma DeviceConfigReadBack(c: DeviceConfig)
    ensures var b := DeviceConfigLayout(c);
            b[0] == 0 && b[1] == 0 && b[2] == 0 && b[3] == c.icount
            && ReadLE32(b, 4) == c.swVersion && ReadLE32(b, 8) == c.hwVersion
  {
    var b := DeviceConfigLayout(c);
    assert b[4..8] == LE32(c.swVersion) && b[8..12] == LE32(c.hwVersion);
    ReadLE32OfLE32(b, 4, c.swVersion);
    ReadLE32OfLE32(b, 8, c.hwVersion);
  }

  /** The bit-timing constants of one channel. */
  datatype BtConst = BtConst(features: Cfg.ChannelFeatures, fclkCan: u32, constraints: Cfg.ChannelConstraints)

  /** The extended bit-timing constants of one channel. */
  datatype BtConstExt = BtConstExt(
    features: Cfg.ChannelFeatures, fclkCan: u32,
    constraints: Cfg.ChannelConstraints, dataConstraints: Cfg.ChannelConstraints)

  function NewBtConst(ch: Cfg.Channel): (c: BtConst)
    ensures c.features == ch.features && c.fclkCan == ch.fclkCan && c.constraints == ch.constraints
  {
    BtConst.BtConst(ch.features, ch.fclkCan, ch.constraints)
  }

  /** `BtConstExt::new`: the data-phase constraints fall back to the classic ones. */
  function NewBtConstExt(ch: Cfg.Channel): (c: BtConstExt)
    ensures c.features == ch.features && c.fclkCan == ch.fclkCan && c.constraints == ch.constraints
    ensures ch.dataConstraints.Some? ==> c.dataConstraints == ch.dataConstraints.value
    ensures ch.dataConstraints.None? ==> c.dataConstraints == ch.constraints
  {
    match ch.dataConstraints
    case Some(d) => BtConstExt.BtConstExt(ch.features, ch.fclkCan, ch.constraints, d)
    case None => BtConstExt.BtConstExt(ch.features, ch.fclkCan, ch.constraints, ch.constraints)
  }

  /** Size of the BtConst reply. */
  const BtConstSize: nat := 40
  /** Size of the BtConstExt reply. */
  const BtConstExtSize: nat := 72

  /** Intended BtConst layout: features@0, fclk@4, constraints@8..40. */
  function BtConstLayout(c: BtConst): (b: seq<u8>)
    ensures |b| == BtConstSize
  {
    LE32(c.features.raw) + LE32(c.fclkCan) + Cfg.EncodeConstraints(c.constraints)
  }

  /** The host reads back every field of the intended BtConst reply. */
  lemma BtConstReadBack(c: BtConst)
    ensures var b := BtConstLayout(c);
            ReadLE32(b, 0) == c.features.raw && ReadLE32(b, 4) == c.fclkCan
            && Cfg.DecodeConstraints(b, 8) == c.constraints
  {
    var b := BtConstLayout(c);
    assert b[0..4] == LE32(c.features.raw) && b[4..8] == LE32(c.fclkCan);
    assert b[8..40] == Cfg.EncodeConstraints(c.constraints);
    ReadLE32OfLE32(b, 0, c.features.raw);
    ReadLE32OfLE32(b, 4, c.fclkCan);
    Cfg.DecodeEncodeConstraints(b, 8, c.constraints);
  }

  /**
   * BtConst layout as written: the running offset is the count of the last
   * write, so the constraints start at 4 over the clock and the last four
   * bytes stay zero.
   */
  function BtConstLayoutAsWritten(c: BtConst): (b: seq<u8>)
    ensures |b| == BtConstSize
  {
    LE32(c.features.raw) + Cfg.EncodeConstraints(c.constraints) + Zeros(4)
  }

  /** As written, the BtConst reply does not depend on the CAN clock, and the host reads tseg1_min as the clock. */
  lemma BtConstAsWrittenLosesClock(c: BtConst, fclk: u32)
    ensures BtConstLayoutAsWritten(c.(fclkCan := fclk)) == BtConstLayoutAsWritten(c)
    ensures ReadLE32(BtConstLayoutAsWritten(c), 4) == c.constraints.tseg1Min
  {
    var b := BtConstLayoutAsWritten(c);
    Cfg.EncodeConstraintsField(c.constraints, 0);
    assert b[4..8] == Cfg.EncodeConstraints(c.constraints)[0..4];
    ReadLE32OfLE32(b, 4, c.constraints.tseg1Min);
  }

  /** Intended BtConstExt layout: features@0, fclk@4, constraints@8..40, data constraints@40..72. */
  function BtConstExtLayout(c: BtConstExt): (b: seq<u8>)
    ensures |b| == BtConstExtSize
  {
    LE32(c.features.raw) + LE32(c.fclkCan)
    + Cfg.EncodeConstraints(c.constraints) + Cfg.EncodeConstraints(c.dataConstraints)
  }

  /** The host reads back every field of the intended BtConstExt reply. */
  lemma BtConstExtReadBack(c: BtConstExt)
    ensures var b := BtConstExtLayout(c);
            ReadLE32(b, 0) == c.features.raw && ReadLE32(b, 4) == c.fclkCan
            && Cfg.DecodeConstraints(b, 8) == c.constraints
            && Cfg.DecodeConstraints(b, 40) == c.dataConstraints
  {
    var b := BtConstExtLayout(c);
    assert b[0..4] == LE32(c.features.raw) && b[4..8] == LE32(c.fclkCan);
    assert b[8..40] == Cfg.EncodeConstraints(c.constraints);
    assert b[40..72] == Cfg.EncodeConstraints(c.dataConstraints);
    ReadLE32OfLE32(b, 0, c.features.raw);
    ReadLE32OfLE32(b, 4, c.fclkCan);
    Cfg.DecodeEncodeConstraints(b, 8, c.constraints);
    Cfg.DecodeEncodeConstraints(b, 40, c.dataConstraints);
  }

  /** A channel without data-phase constraints reports its classic constraints twice. */
  lemma BtConstExtFallback(ch: Cfg.Channel)
    requires ch.dataConstraints.None?
    ensures Cfg.DecodeConstraints(BtConstExtLayout(NewBtConstExt(ch)), 40) == ch.constraints
  {
    BtConstExtReadBack(NewBtConstExt(ch));
  }

  /**
   * BtConstExt layout as written: constraints at 4, the data constraints at
   * 32 over the classic `brp_inc`, and the last eight bytes zero.
   */
  function BtConstExtLayoutAsWritten(c: BtConstExt): (b: seq<u8>)
    ensures |b| == BtConstExtSize
  {
    LE32(c.features.raw) + Cfg.EncodeConstraints(c.constraints)[..28]
    + Cfg.EncodeConstraints(c.dataConstraints) + Zeros(8)
  }

  /** As written, the classic `brp_inc` slot holds the data-phase `tseg1_min`, and the clock is lost. */
  lemma BtConstExtAsWrittenOverlap(c: BtConstExt, fclk: u32)
    ensures BtConstExtLayoutAsWritten(c.(fclkCan := fclk)) == BtConstExtLayoutAsWritten(c)
    ensures ReadLE32(BtConstExtLayoutAsWritten(c), 32) == c.dataConstraints.tseg1Min
  {
    var b := BtConstExtLayoutAsWritten(c);
    Cfg.EncodeConstraintsField(c.dataConstraints, 0);
    assert b[32..36] == Cfg.EncodeConstraints(c.dataConstraints)[0..4];
    ReadLE32OfLE32(b, 32, c.dataConstraints.tseg1Min);
  }

  // ---------------------------------------------------------------------
  // Packing into a fixed buffer

  /**
   * scroll's `pwrite_with`: copies `bytes` to `buf[off..]` and returns the
   * number of bytes written, or fails, leaving `buf` alone, when they do not fit.
   */
  method PWrite(buf: array<u8>, off: nat, bytes: seq<u8>) returns (r: Option<nat>)
    modifies buf
    ensures off + |bytes| <= buf.Length ==>
      r == Some(|bytes|) && buf[..] == old(buf[..off]) + bytes + old(buf[off + |bytes|..])
    ensures off + |bytes| > buf.Length ==> r == None && buf[..] == old(buf[..])
  {
    if off + |bytes| > buf.Length {
      return None;
    }
    var i := 0;
    while i < |bytes|
      invariant 0 <= i <= |bytes|
      invariant buf[..] == old(buf[..off]) + bytes[..i] + old(buf[off + i..])
    {
      buf[off + i] := bytes[i];
      i := i + 1;
    }
    return Some(|bytes|);
  }

  /** `BtConst::packed` with the running offset advanced by each write; no write overflows the buffer. */
  method PackBtConst(c: BtConst) returns (r: Option<seq<u8>>)
    ensures r == Some(BtConstLayout(c))
  {
    var buf := new u8[BtConstSize](_ => 0);
    assert buf[..] == Zeros(BtConstSize);
    var written: nat := 0;
    var n := PWrite(buf, written, LE32(c.features.raw));
    written := written + n.value;
    assert buf[..] == LE32(c.features.raw) + Zeros(36);
    n := PWrite(buf, written, LE32(c.fclkCan));
    written := written + n.value;
    assert buf[..] == LE32(c.features.raw) + LE32(c.fclkCan) + Zeros(32);
    assert buf[..written] == LE32(c.features.raw) + LE32(c.fclkCan);
    n := PWrite(buf, written, Cfg.EncodeConstraints(c.constraints));
    assert buf[..] == BtConstLayout(c);
    r := Some(buf[..]);
  }

  /** `BtConst::packed` as written: each write's count replaces the offset. */
  method PackBtConstAsWritten(c: BtConst) returns (r: Option<seq<u8>>)
    ensures r == Some(BtConstLayoutAsWritten(c))
  {
    var buf := new u8[BtConstSize](_ => 0);
    assert buf[..] == Zeros(BtConstSize);
    var written: nat := 0;
    var n := PWrite(buf, written, LE32(c.features.raw));
    written := n.value;
    assert buf[..] == LE32(c.features.raw) + Zeros(36);
    n := PWrite(buf, written, LE32(c.fclkCan));
    written := n.value;
    assert buf[..] == LE32(c.features.raw) + LE32(c.fclkCan) + Zeros(32);
    assert buf[..written] == LE32(c.features.raw);
    assert buf[written + 32..] == Zeros(4);
    n := PWrite(buf, written, Cfg.EncodeConstraints(c.constraints));
    r := Some(buf[..]);
  }

  /** `BtConstExt::packed` with the running offset advanced by each write. */
  method PackBtConstExt(c: BtConstExt) returns (r: Option<seq<u8>>)
    ensures r == Some(BtConstExtLayout(c))
  {
    var buf := new u8[BtConstExtSize](_ => 0);
    assert buf[..] == Zeros(BtConstExtSize);
    var written: nat := 0;
    var n := PWrite(buf, written, LE32(c.features.raw));
    written := written + n.value;
    assert buf[..] == LE32(c.features.raw) + Zeros(68);
    n := PWrite(buf, written, LE32(c.fclkCan));
    written := written + n.value;
    assert buf[..] == LE32(c.features.raw) + LE32(c.fclkCan) + Zeros(64);
    n := PWrite(buf, written, Cfg.EncodeConstraints(c.constraints));
    written := written + n.value;
    assert buf[..] == LE32(c.features.raw) + LE32(c.fclkCan) + Cfg.EncodeConstraints(c.constraints) + Zeros(32);
    assert buf[..written] == LE32(c.features.raw) + LE32(c.fclkCan) + Cfg.EncodeConstraints(c.constraints);
    n := PWrite(buf, written, Cfg.EncodeConstraints(c.dataConstraints));
    assert buf[..] == BtConstExtLayout(c);
    r := Some(buf[..]);
  }

  /** `BtConstExt::packed` as written: each write's count replaces the offset. */
  method PackBtConstExtAsWritten(c: BtConstExt) returns (r: Option<seq<u8>>)
    ensures r == Some(BtConstExtLayoutAsWritten(c))
  {
    var buf := new u8[BtConstExtSize](_ => 0);
    assert buf[..] == Zeros(BtConstExtSize);
    var written: nat := 0;
    var n := PWrite(buf, written, LE32(c.features.raw));
    written := n.value;
    assert buf[..] == LE32(c.features.raw) + Zeros(68);
    n := PWrite(buf, written, LE32(c.fclkCan));
    written := n.value;
    assert buf[..] == LE32(c.features.raw) + LE32(c.fclkCan) + Zeros(64);
    n := PWrite(buf, written, Cfg.EncodeConstraints(c.constraints));
    written := n.value;
    assert buf[..] == LE32(c.features.raw) + Cfg.EncodeConstraints(c.constraints) + Zeros(36);
    assert buf[..written] == LE32(c.features.raw) + Cfg.EncodeConstraints(c.constraints)[..28];
    assert buf[written + 32..] == Zeros(8);
    n := PWrite(buf, written, Cfg.EncodeConstraints(c.dataConstraints));
    r := Some(buf[..]);
  }

  /** The requests the device answers with data. */
  predicate IsReadable(q: Option<GsUsbRequest>) {
    q == Some(GsUsbRequest.DeviceConfig) || q == Some(GsUsbRequest.BtConst) || q == Some(GsUsbRequest.BtConstExt)
  }

  /** The `reply` helper: a packed buffer is sent, a packing error rejects. */
  function Reply(packed: Option<seq<u8>>): (r: ControlResponse)
    ensures packed.Some? ==> r == Accepted(packed.value)
    ensures packed.None? ==> r == Rejected
  {
    match packed
    case Some(b) => Accepted(b)
    case None => Rejected
  }

  // ---------------------------------------------------------------------
  // The class

  /** Largest number of channels: the count minus one must fit the `icount` byte below 255. */
  const MaxChannels: nat := 255

  class GsUsbClass {
    /** Interface number allocated to the class. */
    const commIf: u8
    /** Bulk endpoint packet size. */
    const maxPacketSize: nat
    const channels: seq<Cfg.Channel>
    const config: DeviceConfig
    /** Single-slot mailbox for the last decoded configuration command. */
    var controlEvent: Option<E.ChannelEvent>
    /** Halt state of the bulk IN endpoint. */
    var stalled: bool

    ghost predicate Valid()
      reads this
    {
      1 <= |channels| < MaxChannels
      && maxPacketSize in {8, 16, 32, 64}
      && config.icount == |channels| - 1
      && (controlEvent.Some? ==> controlEvent.value.channel < |channels|)
    }

    /** `GsUsbClass::new`: `icount` is the channel count minus one; the mailbox starts empty. */
    constructor (commIf: u8, maxPacketSize: nat, channels: seq<Cfg.Channel>, swVersion: u32, hwVersion: u32)
      requires 1 <= |channels| < MaxChannels
      requires maxPacketSize in {8, 16, 32, 64}
      ensures Valid()
      ensures this.commIf == commIf && this.maxPacketSize == maxPacketSize && this.channels == channels
      ensures config == DeviceConfig.DeviceConfig(|channels| - 1, swVersion, hwVersion)
      ensures controlEvent == None && !stalled
    {
      this.commIf := commIf;
      this.maxPacketSize := maxPacketSize;
      this.channels := channels;
      this.config := DeviceConfig.DeviceConfig(|channels| - 1, swVersion, hwVersion);
      this.controlEvent := None;
      this.stalled := false;
    }

    /** Takes the pending event out of the mailbox, leaving it empty. */
    method ReadControlEvent() returns (ev: Option<E.ChannelEvent>)
      requires Valid()
      modifies this`controlEvent
      ensures Valid()
      ensures ev == old(controlEvent) && controlEvent == None
      ensures ev.Some? ==> ev.value.channel < |channels|
    {
      ev := controlEvent;
      controlEvent := None;
    }

    /** `control_out` on a transfer with setup fields `req` and data stage `data`. */
    method ControlOut(req: Request, data: seq<u8>) returns (response: ControlResponse)
      requires Valid()
      modifies this`controlEvent
      ensures Valid()
      ensures OutStep(controlEvent, response)
              == ControlOutStep(old(controlEvent), req, data, commIf, |channels|)
    {
      if req.requestType != VendorType || req.recipient != InterfaceRecipient || req.index != commIf {
        return Ignored;
      }
      var gsRequest := FromRaw(req.request);
      var channel: nat := req.value;
      if gsRequest == Some(GsUsbRequest.HostFormat) {
        return Accepted([]);
      }
      controlEvent := DecodeOutEvent(gsRequest, channel, data, |channels|);
      response := if controlEvent.Some? then Accepted([]) else Rejected;
    }

    /** `control_in`: the configuration replies; reading them changes nothing. */
    method ControlIn(req: Request) returns (response: ControlResponse)
      requires Valid()
      ensures !InScope(req, commIf) ==> response == Ignored
      ensures InScope(req, commIf) && FromRaw(req.request) == Some(GsUsbRequest.DeviceConfig) ==>
        response == Accepted(DeviceConfigLayout(config))
      ensures InScope(req, commIf) && FromRaw(req.request) == Some(GsUsbRequest.BtConst) ==>
        response == if req.value < |channels|
                    then Accepted(BtConstLayout(NewBtConst(channels[req.value])))
                    else Rejected
      ensures InScope(req, commIf) && FromRaw(req.request) == Some(GsUsbRequest.BtConstExt) ==>
        response == if req.value < |channels|
                    then Accepted(BtConstExtLayout(NewBtConstExt(channels[req.value])))
                    else Rejected
      ensures InScope(req, commIf) && !IsReadable(FromRaw(req.request)) ==> response == Rejected
    {
      if req.requestType != VendorType || req.recipient != InterfaceRecipient || req.index != commIf {
        return Ignored;
      }
      var channel: nat := req.value;
      var gsRequest := FromRaw(req.request);
      if gsRequest == Some(GsUsbRequest.DeviceConfig) {
        response := Reply(Some(DeviceConfigLayout(config)));
      } else if gsRequest == Some(GsUsbRequest.BtConst) && channel < |channels| {
        var packed := PackBtConst(NewBtConst(channels[channel]));
        response := Reply(packed);
      } else if gsRequest == Some(GsUsbRequest.BtConstExt) && channel < |channels| {
        var packed := PackBtConstExt(NewBtConstExt(channels[channel]));
        response := Reply(packed);
      } else {
        response := Rejected;
      }
    }

    /**
     * `control_in` with the constant replies packed as written: the same
     * answers, except that BtConst and BtConstExt carry the as-written bytes.
     */
    method ControlInAsWritten(req: Request) returns (response: ControlResponse)
      requires Valid()
      ensures !InScope(req, commIf) ==> response == Ignored
      ensures InScope(req, commIf) && FromRaw(req.request) == Some(GsUsbRequest.DeviceConfig) ==>
        response == Accepted(DeviceConfigLayout(config))
      ensures InScope(req, commIf) && FromRaw(req.request) == Some(GsUsbRequest.BtConst) ==>
        response == if req.value < |channels|
                    then Accepted(BtConstLayoutAsWritten(NewBtConst(channels[req.value])))
                    else Rejected
      ensures InScope(req, commIf) && FromRaw(req.request) == Some(GsUsbRequest.BtConstExt) ==>
        response == if req.value < |channels|
                    then Accepted(BtConstExtLayoutAsWritten(NewBtConstExt(channels[req.value])))
                    else Rejected
      ensures InScope(req, commIf) && !IsReadable(FromRaw(req.request)) ==> response == Rejected
    {
      if req.requestType != VendorType || req.recipient != InterfaceRecipient || req.index != commIf {
        return Ignored;
      }
      var channel: nat := req.value;
      var gsRequest := FromRaw(req.request);
      if gsRequest == Some(GsUsbRequest.DeviceConfig) {
        response := Reply(Some(DeviceConfigLayout(config)));
      } else if gsRequest == Some(GsUsbRequest.BtConst) && channel < |channels| {
        var packed := PackBtConstAsWritten(NewBtConst(channels[channel]));
        response := Reply(packed);
      } else if gsRequest == Some(GsUsbRequest.BtConstExt) && channel < |channels| {
        var packed := PackBtConstExtAsWritten(NewBtConstExt(channels[channel]));
        response := Reply(packed);
      } else {
        response := Rejected;
      }
    }

    /** Halts the bulk IN endpoint. */
    method Stall()
      modifies this`stalled
      ensures stalled
    {
      stalled := true;
    }
  }

  /** The mailbox holds one event: the second of two reads in a row finds it empty. */
  method ReadTwice(c: GsUsbClass) returns (first: Option<E.ChannelEvent>, second: Option<E.ChannelEvent>)
    requires c.Valid()
    modifies c`controlEvent
    ensures first == old(c.controlEvent) && second == None
  {
    first := c.ReadControlEvent();
    second := c.ReadControlEvent();
  }

  /** Of two configuration commands in a row, the mailbox keeps only the second. */
  method LastCommandWins(c: GsUsbClass, req1: Request, data1: seq<u8>, req2: Request, data2: seq<u8>)
    returns (ev: Option<E.ChannelEvent>)
    requires c.Valid()
    requires InScope(req1, c.commIf) && InScope(req2, c.commIf)
    requires FromRaw(req2.request).Some? && IsCommand(FromRaw(req2.request).value)
    modifies c`controlEvent
    ensures ev == DecodeOutEvent(FromRaw(req2.request), req2.value, data2, |c.channels|)
  {
    var _ := c.ControlOut(req1, data1);
    var _ := c.ControlOut(req2, data2);
    ev := c.ReadControlEvent();
  }
}
