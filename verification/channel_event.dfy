/**
 * Payloads of the host's configuration commands (bit timing, mode,
 * identify), their little-endian layouts, the integer bit-rate formula and
 * the event the control handler hands to the application.
 */
module ChannelEvents {
  import opened Bytes
  import opened Options

  // ---------------------------------------------------------------------
  // Bit timing

  datatype BitTiming = BitTiming(propSeg: u32, phaseSeg1: u32, phaseSeg2: u32, sjw: u32, brp: u32)

  /** Size of the bit-timing payload in bytes. */
  const BitTimingSize: nat := 20

  /** Bit time in time quanta: the sync segment plus the three timing segments. */
  function Quanta(t: BitTiming): (q: nat)
    ensures q >= 1
  {
    1 + t.propSeg + t.phaseSeg1 + t.phaseSeg2
  }

  /**
   * `BitTiming::bit_rate`: `(fclk / brp) / (1 + prop + ph1 + ph2)` with
   * truncating u32 division. None where the source panics: a zero
   * prescaler, or a quanta sum that overflows u32.
   */
  function BitRate(t: BitTiming, fclk: u32): (r: Option<u32>)
    ensures r.None? <==> t.brp == 0 || Quanta(t) > U32_MAX
    ensures r.Some? ==> r.value <= fclk
  {
    if t.brp == 0 || Quanta(t) > U32_MAX then None
    else
      var fbrp := fclk / t.brp;
      DivAtMost(fclk, t.brp);
      DivAtMost(fbrp, Quanta(t));
      Some(fbrp / Quanta(t))
  }

  /** The two truncating divisions round the same way as one division by `brp * quanta`. */
  lemma BitRateSingleDivision(t: BitTiming, fclk: u32)
    requires t.brp != 0 && Quanta(t) <= U32_MAX
    ensures BitRate(t, fclk) == Some(fclk / (t.brp * Quanta(t)))
  {
    DivDiv(fclk, t.brp, Quanta(t));
  }

  /** The synchronisation jump width never affects the bit rate. */
  lemma BitRateIgnoresSjw(t: BitTiming, sjw: u32, fclk: u32)
    ensures BitRate(t.(sjw := sjw), fclk) == BitRate(t, fclk)
  {
  }

  /** 8 MHz clock, prescaler 8, segments 3/3/2: nine quanta of 1 us, 111,111 bit/s. */
  lemma BitRateExample()
    ensures BitRate(BitTiming(3, 3, 2, 1, 8), 8_000_000) == Some(111_111)
  {
  }

  /** The `Pread` layout: five little-endian u32s in declaration order. */
  function EncodeBitTiming(t: BitTiming): (b: seq<u8>)
    ensures |b| == BitTimingSize
  {
    LE32(t.propSeg) + LE32(t.phaseSeg1) + LE32(t.phaseSeg2) + LE32(t.sjw) + LE32(t.brp)
  }

  /** Reads a bit timing from the start of a control payload; fails when it is shorter than 20 bytes. */
  function DecodeBitTiming(b: seq<u8>): (r: Option<BitTiming>)
    ensures r.Some? <==> |b| >= BitTimingSize
  {
    if |b| < BitTimingSize then None
    else Some(BitTiming(ReadLE32(b, 0), ReadLE32(b, 4), ReadLE32(b, 8), ReadLE32(b, 12), ReadLE32(b, 16)))
  }

  lemma DecodeEncodeBitTiming(t: BitTiming)
    ensures DecodeBitTiming(EncodeBitTiming(t)) == Some(t)
  {
    var b := EncodeBitTiming(t);
    assert b[0..4] == LE32(t.propSeg) && b[4..8] == LE32(t.phaseSeg1);
    assert b[8..12] == LE32(t.phaseSeg2) && b[12..16] == LE32(t.sjw) && b[16..20] == LE32(t.brp);
    ReadLE32OfLE32(b, 0, t.propSeg);
    ReadLE32OfLE32(b, 4, t.phaseSeg1);
    ReadLE32OfLE32(b, 8, t.phaseSeg2);
    ReadLE32OfLE32(b, 12, t.sjw);
    ReadLE32OfLE32(b, 16, t.brp);
  }

  /** Only the first 20 bytes of a payload are read, and all of them are. */
  lemma EncodeDecodeBitTiming(b: seq<u8>)
    requires |b| >= BitTimingSize
    ensures EncodeBitTiming(DecodeBitTiming(b).value) == b[..BitTimingSize]
  {
    LE32OfReadLE32(b, 0);
    LE32OfReadLE32(b, 4);
    LE32OfReadLE32(b, 8);
    LE32OfReadLE32(b, 12);
    LE32OfReadLE32(b, 16);
    assert b[..BitTimingSize] == b[0..4] + b[4..8] + b[8..12] + b[12..16] + b[16..20];
  }

  // ---------------------------------------------------------------------
  // Mode

  datatype ModeFlag = ListenOnly | Loopback | TripleSample | OneShot | HwTimestamp | PadPktsToMaxPktSize | Fd {
    /** The bit position; the enum value is `1 << Position()`. */
    function Position(): (k: nat)
      ensures k < 9
    {
      match this
      case ListenOnly => 0
      case Loopback => 1
      case TripleSample => 2
      case OneShot => 3
      case HwTimestamp => 4
      case PadPktsToMaxPktSize => 7
      case Fd => 8
    }
  }

  datatype ChannelFlags = ChannelFlags(raw: u32) {
    /** `is_set`: the mask test `raw & (1 << position) != 0`. */
    function IsSet(bit: ModeFlag): (isSet: bool)
      ensures isSet <==> raw / Pow2(bit.Position()) % 2 == 1
    {
      BitSetIsMaskTest(raw, bit.Position());
      BitSet(raw, bit.Position())
    }
  }

  datatype ChannelMode = ChannelMode(mode: u32, flags: ChannelFlags) {
    /** `is_on`: the mode word is nonzero, that is, one of its four wire bytes is. */
    function IsOn(): (on: bool)
      ensures on <==> LE32(mode) != [0, 0, 0, 0]
    {
      ReadLE32OfLE32(LE32(mode), 0, mode);
      mode != 0
    }
  }

  /** Size of the mode payload in bytes. */
  const ModeSize: nat := 8

  function EncodeMode(m: ChannelMode): (b: seq<u8>)
    ensures |b| == ModeSize
  {
    LE32(m.mode) + LE32(m.flags.raw)
  }

  /** Reads `mode` then `flags`; fails when the payload is shorter than 8 bytes. */
  function DecodeMode(b: seq<u8>): (r: Option<ChannelMode>)
    ensures r.Some? <==> |b| >= ModeSize
  {
    if |b| < ModeSize then None
    else Some(ChannelMode(ReadLE32(b, 0), ChannelFlags(ReadLE32(b, 4))))
  }

  lemma DecodeEncodeMode(m: ChannelMode)
    ensures DecodeMode(EncodeMode(m)) == Some(m)
  {
    var b := EncodeMode(m);
    assert b[0..4] == LE32(m.mode) && b[4..8] == LE32(m.flags.raw);
    ReadLE32OfLE32(b, 0, m.mode);
    ReadLE32OfLE32(b, 4, m.flags.raw);
  }

  /** A mode payload is "on" exactly when its first four bytes are not all zero. */
  lemma DecodedModeIsOn(b: seq<u8>)
    requires |b| >= ModeSize
    ensures DecodeMode(b).value.IsOn() <==> b[0] != 0 || b[1] != 0 || b[2] != 0 || b[3] != 0
  {
  }

  // ---------------------------------------------------------------------
  // Identify

  datatype ChannelIdentify = ChannelIdentify(raw: u32) {
    /** `is_on`: the value is nonzero, that is, one of its four wire bytes is. */
    function IsOn(): (on: bool)
      ensures on <==> LE32(raw) != [0, 0, 0, 0]
    {
      ReadLE32OfLE32(LE32(raw), 0, raw);
      raw != 0
    }
  }

  /** Size of the identify payload in bytes. */
  const IdentifySize: nat := 4

  function EncodeIdentify(i: ChannelIdentify): (b: seq<u8>)
    ensures |b| == IdentifySize
  {
    LE32(i.raw)
  }

  function DecodeIdentify(b: seq<u8>): (r: Option<ChannelIdentify>)
    ensures r.Some? <==> |b| >= IdentifySize
  {
    if |b| < IdentifySize then None else Some(ChannelIdentify(ReadLE32(b, 0)))
  }

  lemma DecodeEncodeIdentify(i: ChannelIdentify)
    ensures DecodeIdentify(EncodeIdentify(i)) == Some(i)
  {
    ReadLE32OfLE32(EncodeIdentify(i), 0, i.raw);
  }

  // ---------------------------------------------------------------------
  // Event

  /** A decoded configuration command for one channel. */
  datatype ChannelEvent =
    | BitTimingEvent(timing: BitTiming, channel: nat)
    | DataBitTimingEvent(timing: BitTiming, channel: nat)
    | ModeEvent(mode: ChannelMode, channel: nat)
    | IdentifyEvent(identify: ChannelIdentify, channel: nat)
}
