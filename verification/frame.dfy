/**
 * The gs_usb bulk wire frame: the packed CAN identifier with its flag bits,
 * the frame flag byte, the frame record and its fixed 76-byte little-endian
 * layout.
 */
module Frame {
  import opened Bytes
  import opened Options

  /** Size of one wire frame in bytes; the host driver expects exactly this. */
  const FrameSize: nat := 76
  /** Size of the frame's data field. */
  const PayloadSize: nat := 64
  /** Echo marker of a frame that does not answer a host transmit request. */
  const NoEcho: u32 := 0xFFFF_FFFF
  /** Numeric identifier occupies bits 0-28 of the packed identifier. */
  const IdLimit: nat := 0x2000_0000

  // ---------------------------------------------------------------------
  // Packed CAN identifier

  /** Flag bits 29-31 of the packed identifier. */
  datatype CanIdBit = ErrorFrame | RemoteFrame | ExtendedId {
    /** The bit position; the enum value is `1 << Position()`. */
    function Position(): (k: nat)
      ensures 29 <= k < 32
    {
      match this
      case ErrorFrame => 29
      case RemoteFrame => 30
      case ExtendedId => 31
    }
  }

  datatype HostCanId = HostCanId(raw: u32) {
    /** `raw & 0x1FFFFFFF`: the numeric identifier without the flag bits. */
    function Id(): (id: u32)
      ensures id < IdLimit
    {
      raw % IdLimit
    }

    /** `Id` is the mask `raw & 0x1FFFFFFF`: it keeps exactly bits 0 to 28 of the raw value. */
    lemma IdBits()
      ensures forall j: nat :: BitSet(Id(), j) <==> j < 29 && BitSet(raw, j)
    {
      Pow2Constants();
      forall j: nat ensures BitSet(raw % IdLimit, j) <==> j < 29 && BitSet(raw, j) {
        LowBits(raw, 29, j);
      }
    }

    /** `is_set`: the mask test `raw & (1 << position) != 0`. */
    function IsSet(bit: CanIdBit): (isSet: bool)
      ensures isSet <==> raw / Pow2(bit.Position()) % 2 == 1
    {
      BitSetIsMaskTest(raw, bit.Position());
      BitSet(raw, bit.Position())
    }
  }

  /** ORing one flag bit in keeps the identifier bits and every other flag bit. */
  function SetCanIdBit(x: u32, bit: CanIdBit): (r: u32)
    ensures r % IdLimit == x % IdLimit
    ensures forall b: CanIdBit :: BitSet(r, b.Position()) <==> BitSet(x, b.Position()) || b == bit
  {
    Pow2Constants();
    SetBitBound(x, bit.Position(), 32);
    SetBitBits(x, bit.Position());
    SetBit(x, bit.Position())
  }

  /** The left fold `bits.iter().fold(acc, |l, r| l | r)`. */
  function FoldCanIdBits(acc: u32, bits: seq<CanIdBit>): (r: u32)
    ensures r % IdLimit == acc % IdLimit
    ensures forall b: CanIdBit :: BitSet(r, b.Position()) <==> BitSet(acc, b.Position()) || b in bits
    decreases |bits|
  {
    if bits == [] then acc
    else
      var r := FoldCanIdBits(SetCanIdBit(acc, bits[0]), bits[1..]);
      assert bits == [bits[0]] + bits[1..];
      r
  }

  /** `HostCanId::new`: the masked raw identifier with the given flag bits ORed in. */
  function NewCanId(rawId: u32, bits: seq<CanIdBit>): (c: HostCanId)
    ensures c.Id() == rawId % IdLimit
    ensures forall b: CanIdBit :: c.IsSet(b) <==> b in bits
  {
    var masked: u32 := rawId % IdLimit;
    Pow2Constants();
    forall b: CanIdBit ensures !BitSet(masked, b.Position()) {
      NoBitsAbove(masked, 29, b.Position());
    }
    HostCanId(FoldCanIdBits(masked, bits))
  }

  // ---------------------------------------------------------------------
  // Frame flag byte

  datatype FlagBit = Overflow | Fd | Brs | Esi {
    /** The bit position; the enum value is `1 << Position()`. */
    function Position(): (k: nat)
      ensures k < 4
    {
      match this
      case Overflow => 0
      case Fd => 1
      case Brs => 2
      case Esi => 3
    }
  }

  datatype HostFrameFlags = HostFrameFlags(raw: u8) {
    /** `is_set`: the mask test `raw & (1 << position) != 0`. */
    function IsSet(bit: FlagBit): (isSet: bool)
      ensures isSet <==> raw / Pow2(bit.Position()) % 2 == 1
    {
      BitSetIsMaskTest(raw, bit.Position());
      BitSet(raw, bit.Position())
    }

    /** `set`: turns `bit` on and leaves every other bit of the byte as it was. */
    function Set(bit: FlagBit): (f: HostFrameFlags)
      ensures f.IsSet(bit)
      ensures forall j: nat :: BitSet(f.raw, j) <==> BitSet(raw, j) || j == bit.Position()
    {
      assert Pow2(8) == 0x100;
      SetBitBound(raw, bit.Position(), 8);
      SetBitBits(raw, bit.Position());
      HostFrameFlags(SetBit(raw, bit.Position()))
    }
  }

  /** The left fold `bits.iter().fold(acc, |l, r| l | r)` over flag bits. */
  function FoldFlagBits(acc: u8, bits: seq<FlagBit>): (r: u8)
    ensures acc < 16 ==> r < 16
    ensures forall b: FlagBit :: BitSet(r, b.Position()) <==> BitSet(acc, b.Position()) || b in bits
    decreases |bits|
  {
    if bits == [] then acc
    else
      assert Pow2(4) == 16;
      assert acc < 16 ==> SetBit(acc, bits[0].Position()) < 16 by {
        if acc < 16 { SetBitBound(acc, bits[0].Position(), 4); }
      }
      var r := FoldFlagBits(HostFrameFlags(acc).Set(bits[0]).raw, bits[1..]);
      assert bits == [bits[0]] + bits[1..];
      r
  }

  /** `HostFrameFlags::new`: exactly the listed bits, nothing above bit 3. */
  function NewFlags(bits: seq<FlagBit>): (f: HostFrameFlags)
    ensures forall b: FlagBit :: f.IsSet(b) <==> b in bits
    ensures f.raw < 16
  {
    HostFrameFlags(FoldFlagBits(0, bits))
  }

  /** `HostFrameFlags::new(&[])` has no bit set. */
  lemma NewFlagsEmpty()
    ensures NewFlags([]).raw == 0
    ensures forall b: FlagBit :: !NewFlags([]).IsSet(b)
  {
  }

  /** Setting a bit that is already set changes nothing. */
  lemma SetIdempotent(f: HostFrameFlags, bit: FlagBit)
    ensures f.Set(bit).Set(bit) == f.Set(bit)
  {
  }

  // ---------------------------------------------------------------------
  // Frame record and its wire layout

  type Payload = s: seq<u8> | |s| == 64 witness Zeros(64)

  datatype HostFrame = HostFrame(
    echoId: u32,
    canId: HostCanId,
    canDlc: u8,
    channel: u8,
    flags: HostFrameFlags,
    reserved: u8,
    bytes: Payload)

  /** `HostFrame::new`: a missing echo id becomes the "not an echo" sentinel; reserved is 0. */
  function NewHostFrame(echoId: Option<u32>, canId: HostCanId, canDlc: u8, channel: u8,
                        flags: HostFrameFlags, bytes: Payload): (f: HostFrame)
    ensures echoId.None? ==> f.echoId == NoEcho
    ensures echoId.Some? ==> f.echoId == echoId.value
    ensures f.reserved == 0
    ensures f.canId == canId && f.canDlc == canDlc && f.channel == channel
    ensures f.flags == flags && f.bytes == bytes
  {
    var e := match echoId case Some(v) => v case None => NoEcho;
    HostFrame(e, canId, canDlc, channel, flags, 0, bytes)
  }

  /**
   * Field order of the `Pread` derive: echo_id@0, can_id@4, can_dlc@8,
   * channel@9, flags@10, reserved@11, data@12..76, integers little-endian.
   */
  function EncodeFrame(f: HostFrame): (b: seq<u8>)
    ensures |b| == FrameSize
  {
    LE32(f.echoId) + LE32(f.canId.raw) + [f.canDlc, f.channel, f.flags.raw, f.reserved] + f.bytes
  }

  /** Reads a frame from the start of `b`; fails when fewer than 76 bytes are given. */
  function DecodeFrame(b: seq<u8>): (r: Option<HostFrame>)
    ensures r.Some? <==> |b| >= FrameSize
  {
    if |b| < FrameSize then None
    else Some(HostFrame(ReadLE32(b, 0), HostCanId(ReadLE32(b, 4)), b[8], b[9],
                        HostFrameFlags(b[10]), b[11], b[12..76]))
  }

  /** Every frame survives the trip through its wire layout. */
  lemma DecodeEncode(f: HostFrame)
    ensures DecodeFrame(EncodeFrame(f)) == Some(f)
  {
    var b := EncodeFrame(f);
    assert b[0..4] == LE32(f.echoId);
    assert b[4..8] == LE32(f.canId.raw);
    ReadLE32OfLE32(b, 0, f.echoId);
    ReadLE32OfLE32(b, 4, f.canId.raw);
    assert b[12..76] == f.bytes;
  }

  /** The layout has no slack: re-encoding a decoded frame gives back its 76 bytes. */
  lemma EncodeDecode(b: seq<u8>)
    requires |b| >= FrameSize
    ensures EncodeFrame(DecodeFrame(b).value) == b[..FrameSize]
  {
    LE32OfReadLE32(b, 0);
    LE32OfReadLE32(b, 4);
    var e := EncodeFrame(DecodeFrame(b).value);
    assert e[0..4] == b[0..4] && e[4..8] == b[4..8] && e[12..76] == b[12..76];
    assert e == b[0..4] + b[4..8] + b[8..12] + b[12..76];
    assert b[..FrameSize] == b[0..4] + b[4..8] + b[8..12] + b[12..76];
  }
}
