/**
 * Static per-channel configuration: the feature bitset advertised to the
 * host, the CAN clock and the bit-timing constraint bounds with their
 * 32-byte little-endian layout.
 */
module ChannelConfig {
  import opened Bytes
  import opened Options

  /** Number of feature bits; they occupy bits 0-10. */
  const FeatureCount: nat := 11

  datatype FeatureBit =
    | ListenOnly | Loopback | TripleSample | OneShot | HwTimestamp | Identify
    | UserId | PadPktsToMaxPktSize | Fd | ReqUsbQuirkLpc546xx | BtConstExt
  {
    /** The bit position; the enum value is `1 << Position()`. */
    function Position(): (k: nat)
      ensures k < FeatureCount
    {
      match this
      case ListenOnly => 0
      case Loopback => 1
      case TripleSample => 2
      case OneShot => 3
      case HwTimestamp => 4
      case Identify => 5
      case UserId => 6
      case PadPktsToMaxPktSize => 7
      case Fd => 8
      case ReqUsbQuirkLpc546xx => 9
      case BtConstExt => 10
    }
  }

  /** Every position 0-10 belongs to exactly one feature bit. */
  function FeatureAt(k: nat): (b: FeatureBit)
    requires k < FeatureCount
    ensures b.Position() == k
  {
    [ListenOnly, Loopback, TripleSample, OneShot, HwTimestamp, Identify,
     UserId, PadPktsToMaxPktSize, Fd, ReqUsbQuirkLpc546xx, BtConstExt][k]
  }

  /** The feature bits are distinct single bits. */
  lemma PositionsDistinct(a: FeatureBit, b: FeatureBit)
    ensures a.Position() == b.Position() ==> a == b
  {
  }

  datatype ChannelFeatures = ChannelFeatures(raw: u32) {
    /** `is_set`: the mask test `raw & (1 << position) != 0`. */
    function IsSet(bit: FeatureBit): (isSet: bool)
      ensures isSet <==> raw / Pow2(bit.Position()) % 2 == 1
    {
      BitSetIsMaskTest(raw, bit.Position());
      BitSet(raw, bit.Position())
    }
  }

  /** The left fold `bits.iter().fold(acc, |l, r| l | r)` over feature bits. */
  function FoldFeatures(acc: u32, bits: seq<FeatureBit>): (r: u32)
    ensures acc < Pow2(FeatureCount) ==> r < Pow2(FeatureCount)
    ensures forall j: nat :: BitSet(r, j) <==> BitSet(acc, j) || exists b :: b in bits && b.Position() == j
    decreases |bits|
  {
    if bits == [] then acc
    else
      Pow2Constants();
      Pow2Add(FeatureCount, 21);
      SetBitBound(acc, bits[0].Position(), 32);
      SetBitBits(acc, bits[0].Position());
      assert acc < Pow2(FeatureCount) ==> SetBit(acc, bits[0].Position()) < Pow2(FeatureCount) by {
        if acc < Pow2(FeatureCount) { SetBitBound(acc, bits[0].Position(), FeatureCount); }
      }
      var r := FoldFeatures(SetBit(acc, bits[0].Position()), bits[1..]);
      assert bits == [bits[0]] + bits[1..];
      r
  }

  /** A fold from 0 sets a feature's bit exactly when the feature is listed. */
  lemma FoldedFeatures(r: u32, bits: seq<FeatureBit>)
    requires r == FoldFeatures(0, bits)
    ensures forall b: FeatureBit :: BitSet(r, b.Position()) <==> b in bits
  {
    forall b: FeatureBit ensures BitSet(r, b.Position()) <==> b in bits {
      assert !BitSet(0, b.Position());
      if BitSet(r, b.Position()) {
        var b' :| b' in bits && b'.Position() == b.Position();
        PositionsDistinct(b, b');
      }
    }
  }

  /** `ChannelFeatures::new`: exactly the listed features, within bits 0-10. */
  function NewFeatures(bits: seq<FeatureBit>): (f: ChannelFeatures)
    ensures forall b: FeatureBit :: f.IsSet(b) <==> b in bits
    ensures f.raw < Pow2(FeatureCount)
  {
    var r := FoldFeatures(0, bits);
    FoldedFeatures(r, bits);
    ChannelFeatures(r)
  }

  /**
   * The value of `ChannelFeatures::new` depends only on which bits are
   * listed: neither their order nor repetitions matter.
   */
  lemma {:induction false} NewFeaturesSetOnly(a: seq<FeatureBit>, b: seq<FeatureBit>)
    requires forall x :: x in a <==> x in b
    ensures NewFeatures(a) == NewFeatures(b)
  {
    var x, y := NewFeatures(a).raw, NewFeatures(b).raw;
    forall j: nat | j < FeatureCount ensures BitSet(x, j) <==> BitSet(y, j) {
      var f := FeatureAt(j);
      assert NewFeatures(a).IsSet(f) <==> NewFeatures(b).IsSet(f);
    }
    BitsDetermine(x, y, FeatureCount);
  }

  /** `ChannelFeatures::new(&[])` is 0. */
  lemma NewFeaturesEmpty()
    ensures NewFeatures([]).raw == 0
  {
  }

  // ---------------------------------------------------------------------
  // Timing constraints

  datatype ChannelConstraints = ChannelConstraints(
    tseg1Min: u32, tseg1Max: u32, tseg2Min: u32, tseg2Max: u32,
    sjwMax: u32, brpMin: u32, brpMax: u32, brpInc: u32)

  /** Size of the constraints layout in bytes. */
  const ConstraintsSize: nat := 32

  /** The `Pwrite` derive: the eight fields as little-endian u32s in declaration order. */
  function EncodeConstraints(c: ChannelConstraints): (b: seq<u8>)
    ensures |b| == ConstraintsSize
  {
    LE32(c.tseg1Min) + LE32(c.tseg1Max) + LE32(c.tseg2Min) + LE32(c.tseg2Max)
    + LE32(c.sjwMax) + LE32(c.brpMin) + LE32(c.brpMax) + LE32(c.brpInc)
  }

  /** Reads constraints laid out from offset `off` (the host side of the layout). */
  function DecodeConstraints(b: seq<u8>, off: nat): ChannelConstraints
    requires off + ConstraintsSize <= |b|
  {
    ChannelConstraints(
      ReadLE32(b, off), ReadLE32(b, off + 4), ReadLE32(b, off + 8), ReadLE32(b, off + 12),
      ReadLE32(b, off + 16), ReadLE32(b, off + 20), ReadLE32(b, off + 24), ReadLE32(b, off + 28))
  }

  /** Field `i` (0-7) of the constraints, in declaration order. */
  function ConstraintField(c: ChannelConstraints, i: nat): u32
    requires i < 8
  {
    [c.tseg1Min, c.tseg1Max, c.tseg2Min, c.tseg2Max, c.sjwMax, c.brpMin, c.brpMax, c.brpInc][i]
  }

  /** Field `i` of the constraints sits little-endian at byte `4 * i` of the layout. */
  lemma EncodeConstraintsField(c: ChannelConstraints, i: nat)
    requires i < 8
    ensures EncodeConstraints(c)[4 * i .. 4 * i + 4] == LE32(ConstraintField(c, i))
  {
    var e := EncodeConstraints(c);
    var f := [c.tseg1Min, c.tseg1Max, c.tseg2Min, c.tseg2Max, c.sjwMax, c.brpMin, c.brpMax, c.brpInc];
    assert e == LE32(f[0]) + LE32(f[1]) + LE32(f[2]) + LE32(f[3])
              + LE32(f[4]) + LE32(f[5]) + LE32(f[6]) + LE32(f[7]);
    forall k | 0 <= k < 4 ensures e[4 * i + k] == LE32(f[i])[k] {
    }
  }

  /** One field read back from a constraints layout placed at `off`. */
  lemma ReadConstraintField(b: seq<u8>, off: nat, c: ChannelConstraints, i: nat)
    requires i < 8
    requires off + ConstraintsSize <= |b| && b[off .. off + ConstraintsSize] == EncodeConstraints(c)
    ensures ReadLE32(b, off + 4 * i) == ConstraintField(c, i)
  {
    EncodeConstraintsField(c, i);
    SliceOfSlice(b, off, off + ConstraintsSize, 4 * i, 4 * i + 4);
    ReadLE32OfLE32(b, off + 4 * i, ConstraintField(c, i));
  }

  /** Decoding the constraints layout at any offset recovers the constraints. */
  lemma DecodeEncodeConstraints(b: seq<u8>, off: nat, c: ChannelConstraints)
    requires off + ConstraintsSize <= |b| && b[off .. off + ConstraintsSize] == EncodeConstraints(c)
    ensures DecodeConstraints(b, off) == c
  {
    ReadConstraintField(b, off, c, 0);
    ReadConstraintField(b, off, c, 1);
    ReadConstraintField(b, off, c, 2);
    ReadConstraintField(b, off, c, 3);
    ReadConstraintField(b, off, c, 4);
    ReadConstraintField(b, off, c, 5);
    ReadConstraintField(b, off, c, 6);
    ReadConstraintField(b, off, c, 7);
  }

  // ---------------------------------------------------------------------
  // Channel

  /** Static description of one CAN channel. */
  datatype Channel = Channel(
    features: ChannelFeatures,
    fclkCan: u32,
    constraints: ChannelConstraints,
    dataConstraints: Option<ChannelConstraints>)
}
