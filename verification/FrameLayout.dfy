/** What a datagram is, byte for byte: an independent description of the frame, which it meets exactly. */
module FrameLayout {
  import opened Bits
  import opened Memory
  import opened Width
  import opened Schema
  import opened Crc32
  import opened Packets
  import opened PacketLayouts
  import opened Framing
  import opened FrameCanonical

  /**
    The bits after the lead, which ends at position pos: the header's, the type
    number in the width of the largest when there is a choice, and the fields.
   */
  function Body(n: int32, header: Header, p: Packet, pos: nat): seq<bool>
    requires Writable(n, header, p)
  {
    EncodeAll(header.ops, header.vals, pos)
    + (if n > 1 then BitsOf(TypeNumber(p), BitLength(n - 1)) else [])
    + FieldBits(p)
  }

  /**
    A frame: zero bytes for the caller's prefix; unless raw, the CRC-32 of the
    protocol id, of four zero bytes in its own place and of all that follows it; then
    the body, and zero bits up to a whole byte.
   */
  ghost predicate IsFrame(info: PacketInfo, n: int32, header: Header, p: Packet, m: seq<byte>)
    requires Writable(n, header, p)
  {
    var k := info.prefixBytes + (if info.rawFormat then 0 else 4);
    && k <= |m|
    && (forall i :: 0 <= i < info.prefixBytes ==> m[i] == 0)
    && (!info.rawFormat ==>
          m[info.prefixBytes..k]
          == LeBytes(Crc(LeBytes(info.protocolId, 4) + ([0, 0, 0, 0] + m[k..]), 0), 4))
    && MemBits(m[k..]) == Pad8(Body(n, header, p, 8 * k))
  }

  // ---------------------------------------------------------------- a frame is one

  /** The type field is the type number in its width. */
  lemma TypeField(n: int32, t: int32, pos: nat)
    requires n > 0 && 0 <= t && (n > 1 ==> t < n)
    ensures AllFit(TypeOps(n), TypeVals(n, t))
    ensures EncodeAll(TypeOps(n), TypeVals(n, t), pos) == if n > 1 then BitsOf(t, BitLength(n - 1)) else []
  {
    hide BitsOf, BitsRequired, BitLength, EncodeAll, TypeOps, TypeVals, Offset, FromOffset, AllFit, Pow2;
    TypeEncoding(n, t, pos);
    if n > 1 {
      WidthIsMinimal(0, n - 1);
      OffsetRoundTrip(t, 0, n - 1);
    }
  }

  lemma BodyBits(n: int32, header: Header, p: Packet, pos: nat)
    requires Writable(n, header, p)
    ensures EncodeAll(BodyOps(n, header, p), BodyVals(n, header, p), pos) == Body(n, header, p, pos)
  {
    hide EncodeAll, BodyOps, BodyVals, TypeOps, TypeVals, AllFit, SchemaOf, Fields, InRange, BitsOf, FieldBits;
    hide BitLength, TypeNumber, TypeOf;
    BodySplits(n, header, p, pos);
    var h := EncodeAll(header.ops, header.vals, pos);
    PacketLayout(p, pos);
    TypeField(n, TypeOf(p), pos + |h|);
    var e := EncodeAll(TypeOps(n), TypeVals(n, TypeOf(p)), pos + |h|);
    PacketLayout(p, pos + |h| + |e|);
  }

  /** The bytes of leading zero bits are zero. */
  lemma LeadingZeroBytes(s: seq<bool>, e: seq<bool>, lead: nat, k: nat)
    requires s == Zeros(lead) + e && 8 * k <= lead
    ensures k <= |Message(s)| && forall i :: 0 <= i < k ==> Message(s)[i] == 0
  {
    hide Message, Zeros, MemBits;
    MessageBits(s);
    var m := Message(s);
    forall i | 0 <= i < k
      ensures m[i] == 0
    {
      MemBitsSlice(m, i, i + 1);
      ZerosPrefix(8 * (i + 1), lead);
      ZeroByte(s, m, e, lead, i);
    }
  }

  lemma ZeroByte(s: seq<bool>, m: seq<byte>, e: seq<bool>, lead: nat, i: nat)
    requires s == Zeros(lead) + e && 8 * (i + 1) <= lead && i < |m|
    requires MemBits(m[i..i + 1]) == MemBits(m)[8 * i..8 * (i + 1)] && MemBits(m) == Pad8(s)
    requires Zeros(lead)[..8 * (i + 1)] == Zeros(8 * (i + 1))
    ensures m[i] == 0
  {
    hide Zeros, MemBits, AlignLen;
    var b := MemBits(m[i..i + 1]);
    ZerosSplit(8 * i, 8);
    assert b == Zeros(lead)[..8 * (i + 1)][8 * i..] == Zeros(8);
    assert m[i..i + 1] == [m[i]];
    MemBitsSingle(m[i]);
    BitsOfZero(8);
    Pow2Small();
    ValueOfSmall(m[i], 8);
    ValueOfSmall(0, 8);
  }

  /** Padding up to a byte depends on the position modulo 8 only. */
  lemma PadAfter(s: seq<bool>, lead: seq<bool>, e: seq<bool>)
    requires s == lead + e && |lead| % 8 == 0
    ensures e + Zeros(AlignLen(|s|)) == Pad8(e)
  {
    hide Zeros;
    assert |s| % 8 == |e| % 8;
  }

  lemma FrameMeets(info: PacketInfo, n: int32, header: Header, p: Packet)
    requires Writable(n, header, p)
    ensures IsFrame(info, n, header, p, Frame(info, n, header, p))
  {
    hide Frame, BodyOps, BodyVals, EncodeAll, Body, Zeros, MemBits, Pad8, Crc, LeBytes, LeNum, AlignLen;
    hide Writable;
    var f, s := Frame(info, n, header, p), StreamBits(info, n, header, p);
    var k := info.prefixBytes + (if info.rawFormat then 0 else 4);
    FrameFacts(info, n, header, p);
    FrameTail(info, n, header, p);
    BodyBits(n, header, p, 8 * k);
    MemBitsSplit(f, k);
    PadAfter(s, Zeros(8 * k), Body(n, header, p, 8 * k));
    PrefixZero(info, n, header, p);
    if !info.rawFormat {
      ExpectedFlat(info, f);
      LeBytesOfNum(f[info.prefixBytes..k]);
    }
  }

  lemma PrefixZero(info: PacketInfo, n: int32, header: Header, p: Packet)
    requires Writable(n, header, p)
    ensures var f := Frame(info, n, header, p);
            info.prefixBytes <= |f| && forall i :: 0 <= i < info.prefixBytes ==> f[i] == 0
  {
    hide BodyOps, BodyVals, EncodeAll, Zeros, Message, FrameCrc, LeBytes, Writable;
    var s := StreamBits(info, n, header, p);
    var e := EncodeAll(BodyOps(n, header, p), BodyVals(n, header, p), LeadBits(info));
    LeadingZeroBytes(s, e, LeadBits(info), info.prefixBytes);
    FieldFitsAt(info, s);
  }

  lemma FieldFitsAt(info: PacketInfo, s: seq<bool>)
    requires |s| >= LeadBits(info)
    ensures !info.rawFormat ==> info.prefixBytes + 4 <= |Message(s)|
  {
  }

  // ---------------------------------------------------------------- and nothing else is

  /** The description leaves no byte open. */
  lemma FrameIff(info: PacketInfo, n: int32, header: Header, p: Packet, m: seq<byte>)
    requires Writable(n, header, p)
    ensures m == Frame(info, n, header, p) <==> IsFrame(info, n, header, p, m)
  {
    hide Frame, Body, MemBits, Pad8, Crc, LeBytes, Writable;
    var f := Frame(info, n, header, p);
    FrameMeets(info, n, header, p);
    if IsFrame(info, n, header, p, m) {
      var j, k := info.prefixBytes, info.prefixBytes + (if info.rawFormat then 0 else 4);
      MemBitsInjective(m[k..], f[k..]);
      assert m[..j] == f[..j];
      assert m == m[..j] + m[j..k] + m[k..] && f == f[..j] + f[j..k] + f[k..];
    }
  }
}
