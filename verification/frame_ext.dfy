/**
 * Translation between a classic CAN frame, as the transceiver driver
 * represents it (identifier kind, raw identifier, remote flag, length and
 * at most eight data bytes), and the gs_usb wire frame.
 */
module FrameExt {
  import opened Bytes
  import opened Options
  import opened Frame

  /** Largest 11-bit standard identifier. */
  const StandardMax: nat := 0x7FF
  /** Largest 29-bit extended identifier. */
  const ExtendedMax: nat := 0x1FFF_FFFF
  /** A classic CAN frame carries at most eight data bytes. */
  const ClassicMax: nat := 8

  /** An identifier; the raw value is range-checked by `WellFormed`, not by the type. */
  datatype Id = Standard(sid: u16) | Extended(eid: u32) {
    function Raw(): u32 {
      match this
      case Standard(s) => s
      case Extended(e) => e
    }

    predicate InRange() {
      match this
      case Standard(s) => s <= StandardMax
      case Extended(e) => e <= ExtendedMax
    }
  }

  /**
   * The driver's frame. A remote frame has a length but no data; the driver
   * reports its data as `dlc` zero bytes.
   */
  datatype CanFrame = CanFrame(id: Id, remote: bool, dlc: nat, data: seq<u8>) {
    predicate WellFormed() {
      id.InRange() && dlc <= ClassicMax && |data| == dlc && (remote ==> data == Zeros(dlc))
    }
  }

  /** The frames the driver can construct. */
  type ClassicFrame = f: CanFrame | f.WellFormed() witness CanFrame(Standard(0), false, 0, [])

  /** The identifier flag bits that encode the kind of the frame and of its identifier. */
  function KindBits(id: Id, remote: bool): (bits: seq<CanIdBit>)
    ensures ExtendedId in bits <==> id.Extended?
    ensures RemoteFrame in bits <==> remote
    ensures ErrorFrame !in bits
  {
    match (id, remote)
    case (Standard(_), true) => [RemoteFrame]
    case (Standard(_), false) => []
    case (Extended(_), true) => [RemoteFrame, ExtendedId]
    case (Extended(_), false) => [ExtendedId]
  }

  /** The data placed in the 64-byte field: a prefix copy, zero-padded. */
  function PadPayload(data: seq<u8>): (p: Payload)
    requires |data| <= PayloadSize
    ensures p[..|data|] == data
    ensures forall i :: |data| <= i < PayloadSize ==> p[i] == 0
  {
    data + Zeros(PayloadSize - |data|)
  }

  /** The packed identifier of a classic frame: its identifier with the kind bits ORed in. */
  function ClassicCanId(id: Id, remote: bool): (c: HostCanId)
    requires id.InRange()
    ensures c.IsSet(ExtendedId) <==> id.Extended?
    ensures c.IsSet(RemoteFrame) <==> remote
    ensures !c.IsSet(ErrorFrame)
    ensures c.Id() == id.Raw()
  {
    assert id.Raw() < IdLimit;
    assert id.Raw() % IdLimit == id.Raw();
    NewCanId(id.Raw(), KindBits(id, remote))
  }

  /**
   * `to_host_frame` with the intended payload copy: not an echo, no frame
   * flags, the given channel, the identifier and kind bits of the source
   * frame, its length, and its data zero-padded to 64 bytes.
   */
  function ToHostFrame(f: ClassicFrame, channel: u8): (h: HostFrame)
    ensures h.echoId == NoEcho && h.reserved == 0
    ensures forall b: FlagBit :: !h.flags.IsSet(b)
    ensures h.channel == channel
    ensures h.canId.IsSet(ExtendedId) <==> f.id.Extended?
    ensures h.canId.IsSet(RemoteFrame) <==> f.remote
    ensures !h.canId.IsSet(ErrorFrame)
    ensures h.canId.Id() == f.id.Raw()
    ensures h.canDlc == f.dlc
    ensures h.bytes[..f.dlc] == f.data
    ensures forall i :: f.dlc <= i < PayloadSize ==> h.bytes[i] == 0
  {
    NewHostFrame(None, ClassicCanId(f.id, f.remote), f.dlc, channel, NewFlags([]), PadPayload(f.data))
  }

  /**
   * `to_host_frame` as written: `copy_from_slice` into the 64-byte array
   * panics (None here) unless the data is exactly 64 bytes long.
   */
  function ToHostFrameAsWritten(f: ClassicFrame, channel: u8): (r: Option<HostFrame>)
    ensures r.Some? ==> r.value == ToHostFrame(f, channel)
  {
    if |f.data| != PayloadSize then None else Some(ToHostFrame(f, channel))
  }

  /** As written, converting any classic frame panics: its data never has 64 bytes. */
  lemma ToHostFrameAsWrittenAlwaysPanics(f: ClassicFrame, channel: u8)
    ensures ToHostFrameAsWritten(f, channel) == None
  {
  }

  /**
   * `from_host_frame` with explicit checks: the ExtendedId bit picks the
   * identifier kind, the RemoteFrame bit the frame kind; a standard
   * identifier above 0x7FF or a length above 8 gives None.
   */
  function FromHostFrame(h: HostFrame): (r: Option<ClassicFrame>)
    ensures r.Some? <==>
      h.canDlc <= ClassicMax && (h.canId.IsSet(ExtendedId) || h.canId.Id() <= StandardMax)
    ensures r.Some? ==> r.value.id.Extended? == h.canId.IsSet(ExtendedId)
    ensures r.Some? ==> r.value.remote == h.canId.IsSet(RemoteFrame)
    ensures r.Some? ==> r.value.id.Raw() == h.canId.Id() && r.value.dlc == h.canDlc
    ensures r.Some? && !r.value.remote ==> r.value.data == h.bytes[..h.canDlc]
  {
    var ext := h.canId.IsSet(ExtendedId);
    if h.canDlc > ClassicMax || (!ext && h.canId.Id() > StandardMax) then None
    else
      var id := if ext then Extended(h.canId.Id()) else Standard(h.canId.Id());
      if h.canId.IsSet(RemoteFrame) then Some(CanFrame(id, true, h.canDlc, Zeros(h.canDlc)))
      else Some(CanFrame(id, false, h.canDlc, h.bytes[..h.canDlc]))
  }

  /** Every classic frame survives the trip to the wire frame and back, whatever the channel. */
  lemma FromToHostFrame(f: ClassicFrame, channel: u8)
    ensures FromHostFrame(ToHostFrame(f, channel)) == Some(f)
  {
    var h := ToHostFrame(f, channel);
    var g := FromHostFrame(h).value;
    assert g.id == f.id by {
      if f.id.Standard? {
        assert g.id.Standard? && g.id.sid == f.id.sid;
      }
    }
  }

  // ---------------------------------------------------------------------
  // `from_host_frame` as written

  /** The result of code that may panic. */
  datatype Outcome<T> = Panics | Returns(value: T)

  /**
   * `from_host_frame` as written: the standard identifier is the packed
   * identifier truncated to 16 bits with no range check (`new_unchecked`),
   * a data frame slices `bytes[..can_dlc]`, which panics beyond 64, and the
   * driver's constructors refuse more than eight bytes.
   */
  function FromHostFrameAsWritten(h: HostFrame): (r: Outcome<Option<CanFrame>>)
    ensures r.Panics? <==> !h.canId.IsSet(RemoteFrame) && h.canDlc > PayloadSize
  {
    var id := if h.canId.IsSet(ExtendedId) then Extended(h.canId.Id())
              else Standard(h.canId.Id() % 0x1_0000);
    if h.canId.IsSet(RemoteFrame) then
      Returns(if h.canDlc > ClassicMax then None else Some(CanFrame(id, true, h.canDlc, Zeros(h.canDlc))))
    else if h.canDlc > PayloadSize then Panics
    else
      Returns(if h.canDlc > ClassicMax then None else Some(CanFrame(id, false, h.canDlc, h.bytes[..h.canDlc])))
  }

  /** A data frame whose length field exceeds 64 makes the as-written conversion panic. */
  lemma FromHostFrameAsWrittenPanicsOnLongDlc()
    ensures FromHostFrameAsWritten(
              HostFrame(NoEcho, HostCanId(0x123), 65, 0, HostFrameFlags(0), 0, Zeros(64))).Panics?
  {
    var c := HostCanId(0x123);
    assert !c.IsSet(RemoteFrame) by {
      Pow2Constants();
      NoBitsAbove(0x123, 29, 30);
    }
  }

  /**
   * A standard-kind wire identifier of 0x800 yields, as written, a standard
   * identifier outside the 11-bit range; the checked conversion refuses it.
   */
  lemma FromHostFrameAsWrittenAcceptsWideStandardId()
    ensures var h := HostFrame(NoEcho, HostCanId(0x800), 0, 0, HostFrameFlags(0), 0, Zeros(64));
            FromHostFrameAsWritten(h) == Returns(Some(CanFrame(Standard(0x800), false, 0, [])))
            && !CanFrame(Standard(0x800), false, 0, []).WellFormed()
            && FromHostFrame(h) == None
  {
    Pow2Constants();
    NoBitsAbove(0x800, 29, 30);
    NoBitsAbove(0x800, 29, 31);
  }

  /** Where the as-written conversion neither panics nor builds an out-of-range identifier, both agree. */
  lemma FromHostFrameAgrees(h: HostFrame)
    requires h.canDlc <= ClassicMax && (h.canId.IsSet(ExtendedId) || h.canId.Id() <= StandardMax)
    ensures FromHostFrameAsWritten(h) == Returns(Some(FromHostFrame(h).value))
  {
  }
}
