/** Datagrams against frames: which accepted datagrams are frames, and what becomes of frames cut short. */
module FrameCanonical {
  import opened Bits
  import opened Memory
  import Width
  import opened Schema
  import opened Crc32
  import opened Packets
  import opened Framing

  // ---------------------------------------------------------------- accepted datagrams

  lemma FailedRejects(n: int32, s: seq<bool>, pos: nat, headerOps: seq<Op>)
    requires n > 0 && AllOk(headerOps)
    ensures ReadBody(n, s, pos, headerOps, true).Rejected?
  {
    hide DecodeAll, ReadType;
  }

  /** An accepted datagram reaches its body and reads it from the end of the lead. */
  lemma AcceptedStart(info: PacketInfo, n: int32, m: seq<byte>, headerOps: seq<Op>)
    requires n > 0 && AllOk(headerOps) && Framed(info, m) && Read(info, n, m, headerOps).Accepted?
    ensures info.prefixBytes <= |m| && ChecksumOk(info, m) && BodyStart(info, m) == LeadBits(info) <= 8 * |m|
    ensures Read(info, n, m, headerOps) == ReadBody(n, MemBits(m), LeadBits(info), headerOps, false)
  {
    hide ReadBody, MemBits, Expected, Received;
    FailedRejects(n, MemBits(m), BodyStart(info, m), headerOps);
  }

  /** Bits beyond k bytes determine the bytes there. */
  lemma TailBytes(m: seq<byte>, w: seq<byte>, k: nat)
    requires k <= |m| && k <= |w| && MemBits(m)[8 * k..] == MemBits(w)[8 * k..]
    ensures m[k..] == w[k..]
  {
    hide MemBits;
    MemBitsSplit(m, k);
    MemBitsSplit(w, k);
    MemBitsInjective(m[k..], w[k..]);
  }

  /** After its lead a frame is its body and zero bits up to a whole byte. */
  lemma FrameTail(info: PacketInfo, n: int32, header: Header, p: Packet)
    requires Writable(n, header, p)
    ensures var f := Frame(info, n, header, p); var z := AlignLen(|StreamBits(info, n, header, p)|);
            var e := EncodeAll(BodyOps(n, header, p), BodyVals(n, header, p), LeadBits(info));
            && 8 * |f| == |StreamBits(info, n, header, p)| + z && LeadBits(info) <= 8 * |f|
            && MemBits(f)[LeadBits(info)..] == e + Zeros(z)
  {
    hide BodyOps, BodyVals, EncodeAll, Zeros, Message, MemBits, Pad8, FrameCrc, LeBytes, Splice, AlignLen;
    var s := StreamBits(info, n, header, p);
    var body, f := Message(s), Frame(info, n, header, p);
    var e := EncodeAll(BodyOps(n, header, p), BodyVals(n, header, p), LeadBits(info));
    MessageBits(s);
    PaddedTail(s, e, LeadBits(info));
    if !info.rawFormat {
      var k := info.prefixBytes + 4;
      FieldFits(info, s);
      SpliceTail(body, info.prefixBytes, LeBytes(FrameCrc(info, body), 4), k);
      TailBits(f, body, k);
    }
  }

  lemma PaddedTail(s: seq<bool>, e: seq<bool>, pos: nat)
    requires s == Zeros(pos) + e
    ensures Pad8(s)[pos..] == e + Zeros(AlignLen(|s|))
  {
    hide Zeros, AlignLen;
  }

  /** Two datagrams that pass their checksum and agree after its field agree on the field. */
  lemma SameChecksum(info: PacketInfo, m: seq<byte>, f: seq<byte>)
    requires !info.rawFormat && info.prefixBytes + 4 <= Min(|m|, |f|)
    requires ChecksumOk(info, m) && ChecksumOk(info, f) && m[info.prefixBytes + 4..] == f[info.prefixBytes + 4..]
    ensures m[info.prefixBytes..] == f[info.prefixBytes..]
  {
    hide Crc, LeBytes, LeNum;
    var k := info.prefixBytes;
    LeBytesOfNum(m[k..k + 4]);
    LeBytesOfNum(f[k..k + 4]);
    assert m[k..] == m[k..k + 4] + m[k + 4..] && f[k..] == f[k..k + 4] + f[k + 4..];
  }

  lemma LeadDropped(info: PacketInfo, m: seq<byte>, f: seq<byte>)
    requires !info.rawFormat && info.prefixBytes + 4 <= Min(|m|, |f|)
    requires m[info.prefixBytes..] == f[info.prefixBytes..]
    ensures m[info.prefixBytes + 4..] == f[info.prefixBytes + 4..]
  {
    assert m[info.prefixBytes..][4..] == m[info.prefixBytes + 4..];
    assert f[info.prefixBytes..][4..] == f[info.prefixBytes + 4..];
  }

  /** Passing the checksum, two datagrams are the same after the prefix iff their bits after the lead are. */
  lemma SameAfterPrefix(info: PacketInfo, m: seq<byte>, f: seq<byte>)
    requires Framed(info, m) && Framed(info, f) && info.prefixBytes <= Min(|m|, |f|)
    requires ChecksumOk(info, m) && ChecksumOk(info, f)
    requires LeadBits(info) <= 8 * Min(|m|, |f|)
    ensures m[info.prefixBytes..] == f[info.prefixBytes..]
            <==> MemBits(m)[LeadBits(info)..] == MemBits(f)[LeadBits(info)..]
  {
    hide MemBits, ChecksumOk;
    var k := info.prefixBytes + (if info.rawFormat then 0 else 4);
    assert LeadBits(info) == 8 * k;
    if m[info.prefixBytes..] == f[info.prefixBytes..] {
      if !info.rawFormat {
        LeadDropped(info, m, f);
      }
      TailBits(m, f, k);
    }
    if MemBits(m)[8 * k..] == MemBits(f)[8 * k..] {
      TailBytes(m, f, k);
      if !info.rawFormat {
        SameChecksum(info, m, f);
      }
    }
  }

  // ---------------------------------------------------------------- packet types beyond the reader's number

  /**
    No packet type at or above n fits the type field for n types. The source does not
    check the range of the type it reads, so this is what keeps such types out.
   */
  ghost predicate TypesCovered(n: int32)
    requires n > 0
  {
    n == 1 || forall t :: Known(t) && n <= t ==> Pow2(Width.BitsRequired(0, n - 1)) <= t
  }

  lemma AcceptedCovered(info: PacketInfo, n: int32, m: seq<byte>, headerOps: seq<Op>)
    requires n > 0 && AllOk(headerOps) && Framed(info, m) && Read(info, n, m, headerOps).Accepted?
    requires TypesCovered(n)
    ensures TypeOf(Read(info, n, m, headerOps).packet) < n
  {
    hide ReadBody, MemBits, ChecksumOk, Framed, BodyStart, TypeOf, Pow2;
    AcceptedStart(info, n, m, headerOps);
    AcceptedType(n, MemBits(m), LeadBits(info), headerOps);
  }

  /** Some packet of each type the factory knows. */
  function Sample(t: int): (p: Packet)
    requires Known(t)
    ensures InRange(p) && TypeOf(p) == t
  {
    match t
    case 0 => TestPacketA(1, 2, 3)
    case 1 => TestPacketB(0, 1)
    case 2 => TestPacketC(seq(16, i requires 0 <= i < 16 => i))
    case 101 => ConnectionStartReq(101, 0, 0)
    case 102 => ConnectionStartRsp(102, 0)
    case 103 => ConnectionStopReq(103, 0, 0)
    case 104 => ConnectionStopRsp(104, 0, 0)
    case _ => ConnectionHeartBeat(105, 0)
  }

  /** A frame written where type t is the last one; a reader with fewer types but the same width accepts it. */
  lemma UncoveredAccepted(info: PacketInfo, n: int32, t: int32)
    requires n > 1 && Known(t) && n <= t < Pow2(Width.BitsRequired(0, n - 1))
    ensures var header := Header([], []);
            && Writable(t + 1, header, Sample(t))
            && var m := Frame(info, t + 1, header, Sample(t));
               Framed(info, m) && Read(info, n, m, []) == Accepted(Sample(t), [])
  {
    hide Frame, Framed, ChecksumOk, BodyStart, MemBits, ReadBody, TypeOf, InRange, Sample, Known, Pow2;
    KnownSmall(t);
    var header := Header([], []);
    var m := Frame(info, t + 1, header, Sample(t));
    FramedRoundTrip(info, t + 1, header, Sample(t));
    Width.SameWidth(n - 1, t);
    SameTypeField(n, t + 1, MemBits(m), BodyStart(info, m), [], info.rawFormat && info.prefixBytes > |m|);
  }

  /** Some accepted packet has a type at or above n. */
  ghost predicate AcceptsBeyond(info: PacketInfo, n: int32, m: seq<byte>)
    requires n > 0
  {
    Framed(info, m) && Read(info, n, m, []).Accepted? && TypeOf(Read(info, n, m, []).packet) >= n
  }

  /**
    `ReadPacket` with n packet types never accepts a packet of a type at or above n,
    over all datagrams, if and only if n covers the types.
   */
  lemma TypesBelowIff(info: PacketInfo, n: int32)
    requires n > 0
    ensures (forall m :: !AcceptsBeyond(info, n, m)) <==> TypesCovered(n)
  {
    hide Frame, Framed, Read, TypeOf, InRange, Sample, Known, Pow2;
    if TypesCovered(n) {
      forall m
        ensures !AcceptsBeyond(info, n, m)
      {
        if Framed(info, m) && Read(info, n, m, []).Accepted? {
          AcceptedCovered(info, n, m, []);
        }
      }
    } else {
      var t :| Known(t) && n <= t < Pow2(Width.BitsRequired(0, n - 1));
      KnownSmall(t);
      UncoveredAccepted(info, n, t);
      assert AcceptsBeyond(info, n, Frame(info, t as int32 + 1, Header([], []), Sample(t)));
    }
  }

  lemma KnownSmall(t: int)
    requires Known(t)
    ensures 0 <= t <= 105
  {
  }

  /** The number of types the program sets covers them. */
  lemma ConfiguredTypesCovered()
    ensures TypesCovered(106)
  {
    hide Pow2;
  }

  /** Four fewer would not: the 7-bit field for 102 types also holds 102 to 105, and a heartbeat is accepted. */
  lemma FewerTypesNotCovered(info: PacketInfo)
    ensures !TypesCovered(102)
    ensures Writable(106, Header([], []), Sample(105))
    ensures AcceptsBeyond(info, 102, Frame(info, 106, Header([], []), Sample(105)))
  {
    hide Frame, Framed, Read, TypeOf, InRange, Sample;
    SevenBits();
    assert Known(105);
    UncoveredAccepted(info, 102, 105);
  }

  lemma SevenBits()
    ensures Pow2(Width.BitsRequired(0, 101)) == 128
  {
    hide Width.BitsRequired;
    assert Pow2(6) == 64 && Pow2(7) == 128;
    Width.WidthIs(0, 101, 7);
  }

  // ---------------------------------------------------------------- accepted datagrams and frames

  /**
    On arbitrary bytes: an accepted packet is in range. With enough packet types for
    it, which the reader's number is if its type is below that, the datagram is, apart
    from the prefix, the frame of what was read exactly if its body is followed by
    nothing but the zero bits that complete its last byte. Whether the reader's number
    is always enough is decided by `TypesCovered`.
   */
  lemma AcceptedIsFrame(info: PacketInfo, n: int32, m: seq<byte>, headerOps: seq<Op>)
    requires n > 0 && AllOk(headerOps) && Framed(info, m) && Read(info, n, m, headerOps).Accepted?
    ensures var r := Read(info, n, m, headerOps); var header, k := Header(headerOps, r.header), TypesFor(n, r.packet);
            && info.prefixBytes <= |m| && InRange(r.packet) && header.Ok() && Writable(k, header, r.packet)
            && (TypesCovered(n) ==> k == n)
            && var f := Frame(info, k, header, r.packet); var s := StreamBits(info, k, header, r.packet);
               && info.prefixBytes <= |f| && |s| <= 8 * |m|
               && (m[info.prefixBytes..] == f[info.prefixBytes..] <==> MemBits(m)[|s|..] == Zeros(AlignLen(|s|)))
  {
    hide ReadBody, MemBits, ChecksumOk, EncodeAll, BodyOps, BodyVals, At, TypeOf, InRange, Frame, Zeros;
    hide AlignLen, AllFit, Framed, BodyStart, StreamBits, Writable, TypesCovered;
    AcceptedStart(info, n, m, headerOps);
    AcceptedIsCanonical(n, MemBits(m), LeadBits(info), headerOps);
    var r := Read(info, n, m, headerOps);
    if TypesCovered(n) {
      AcceptedCovered(info, n, m, headerOps);
    }
    IsFrame(info, TypesFor(n, r.packet), m, Header(headerOps, r.header), r.packet);
  }

  /** The condition can fail: without a checksum, a frame followed by any bytes is accepted as the frame is. */
  lemma TrailingBytesAccepted(info: PacketInfo, n: int32, header: Header, p: Packet, rest: seq<byte>)
    requires info.rawFormat && Writable(n, header, p) && (n > 1 || TypeOf(p) == 0) && rest != []
    ensures var f := Frame(info, n, header, p);
            && Read(info, n, f + rest, header.ops) == Accepted(p, WireAll(header.ops, header.vals))
            && info.prefixBytes <= |f| && (f + rest)[info.prefixBytes..] != f[info.prefixBytes..]
  {
    hide Frame, ReadBody, MemBits, EncodeAll, BodyOps, BodyVals, At, WireAll, TypeOf;
    var f := Frame(info, n, header, p);
    var e := EncodeAll(BodyOps(n, header, p), BodyVals(n, header, p), LeadBits(info));
    FrameFacts(info, n, header, p);
    MemBitsConcat(f, rest);
    AtWithin(MemBits(f), MemBits(rest), LeadBits(info), e);
    BodyReads(n, header, p, MemBits(f + rest), LeadBits(info));
  }

  lemma AtWithin(s: seq<bool>, t: seq<bool>, pos: nat, e: seq<bool>)
    requires At(s, pos, e)
    ensures At(s + t, pos, e)
  {
    assert (s + t)[pos..pos + |e|] == s[pos..pos + |e|];
  }

  lemma IsFrame(info: PacketInfo, n: int32, m: seq<byte>, header: Header, p: Packet)
    requires Writable(n, header, p) && Framed(info, m) && info.prefixBytes <= |m|
    requires ChecksumOk(info, m) && LeadBits(info) <= 8 * |m|
    requires At(MemBits(m), LeadBits(info), EncodeAll(BodyOps(n, header, p), BodyVals(n, header, p), LeadBits(info)))
    ensures var f := Frame(info, n, header, p); var s := StreamBits(info, n, header, p);
            && info.prefixBytes <= |f| && |s| <= 8 * |m|
            && (m[info.prefixBytes..] == f[info.prefixBytes..] <==> MemBits(m)[|s|..] == Zeros(AlignLen(|s|)))
  {
    hide MemBits, ChecksumOk, EncodeAll, BodyOps, BodyVals, Frame, Zeros, AlignLen, Framed, BodyStart;
    var f, s := Frame(info, n, header, p), StreamBits(info, n, header, p);
    var e := EncodeAll(BodyOps(n, header, p), BodyVals(n, header, p), LeadBits(info));
    FrameFacts(info, n, header, p);
    FrameTail(info, n, header, p);
    SameAfterPrefix(info, m, f);
    TailSplits(MemBits(m), LeadBits(info), e, |s|, Zeros(AlignLen(|s|)));
  }

  lemma TailSplits(s: seq<bool>, pos: nat, e: seq<bool>, end: nat, z: seq<bool>)
    requires At(s, pos, e) && end == pos + |e|
    ensures s[pos..] == e + z <==> s[end..] == z
  {
    assert s[pos..] == s[pos..end] + s[end..];
    if s[pos..] == e + z {
      assert s[pos..][|e|..] == z && s[pos..][|e|..] == s[end..];
    }
  }

  // ---------------------------------------------------------------- frames cut short

  /** What a call reads from a prefix it reads from the whole. */
  lemma DecodeOnPrefix(op: Op, s: seq<bool>, t: seq<bool>, pos: nat)
    requires OpOk(op) && t <= s && Decode(op, t, pos).Got?
    ensures Decode(op, s, pos) == Decode(op, t, pos) && pos <= Decode(op, t, pos).pos <= |t|
  {
    hide Width.BitsRequired, ValueOf, BytesOf, Zeros, AlignLen, Width.FromOffset;
    var a := pos + AlignLen(pos);
    match op
    case Int(min, max) => PrefixSlice(s, t, pos, pos + Width.BitsRequired(min, max));
    case UBits(n) => PrefixSlice(s, t, pos, pos + n);
    case Bool =>
    case UInt64 =>
      PrefixSlice(s, t, pos, pos + 32);
      PrefixSlice(s, t, pos + 32, pos + 64);
    case Bytes(n) =>
      PrefixSlice(s, t, pos, a);
      PrefixSlice(s, t, a, a + 8 * n);
    case Align => PrefixSlice(s, t, pos, a);
  }

  lemma {:induction false} DecodeAllOnPrefix(ops: seq<Op>, s: seq<bool>, t: seq<bool>, pos: nat)
    requires AllOk(ops) && t <= s && pos <= |t| && DecodeAll(ops, t, pos).Got?
    ensures DecodeAll(ops, s, pos) == DecodeAll(ops, t, pos) && pos <= DecodeAll(ops, t, pos).pos <= |t|
  {
    hide Decode;
    if ops != [] {
      DecodeOnPrefix(ops[0], s, t, pos);
      DecodeAllOnPrefix(ops[1..], s, t, Decode(ops[0], t, pos).pos);
    }
  }

  lemma TypeOnPrefix(n: int32, s: seq<bool>, t: seq<bool>, pos: nat)
    requires n > 0 && t <= s && pos <= |t| && ReadType(n, t, pos).Got?
    ensures ReadType(n, s, pos) == ReadType(n, t, pos) && pos <= ReadType(n, t, pos).pos <= |t|
  {
    hide Width.BitsRequired, ValueOf, Width.FromOffset;
    if n > 1 {
      PrefixSlice(s, t, pos, pos + Width.BitsRequired(0, n - 1));
    }
  }

  lemma AcceptedParts(n: int32, t: seq<bool>, pos: nat, headerOps: seq<Op>)
    requires n > 0 && AllOk(headerOps) && ReadBody(n, t, pos, headerOps, false).Accepted?
    ensures var h := DecodeAll(headerOps, t, pos);
            h.Got? && var ty := ReadType(n, t, h.pos);
            ty.Got? && Known(ty.value) && DecodeAll(SchemaOf(ty.value), t, ty.pos).Got?
  {
    hide DecodeAll, ReadType, SchemaOf;
  }

  /** A body cut short is not accepted. */
  lemma CutBodyRejected(n: int32, header: Header, p: Packet, s: seq<bool>, t: seq<bool>, pos: nat)
    requires Writable(n, header, p) && (n > 1 || TypeOf(p) == 0) && t <= s && pos <= |t|
    requires At(s, pos, EncodeAll(BodyOps(n, header, p), BodyVals(n, header, p), pos))
    requires |t| < pos + |EncodeAll(BodyOps(n, header, p), BodyVals(n, header, p), pos)|
    ensures ReadBody(n, t, pos, header.ops, false).Rejected?
  {
    hide DecodeAll, ReadType, SchemaOf, EncodeAll, BodyOps, BodyVals, At, ReadBody, Fields, WireAll, AllFit;
    BodyEnds(n, header, p, s, pos);
    if ReadBody(n, t, pos, header.ops, false).Accepted? {
      AcceptedParts(n, t, pos, header.ops);
      var h := DecodeAll(header.ops, t, pos);
      DecodeAllOnPrefix(header.ops, s, t, pos);
      var ty := ReadType(n, t, h.pos);
      TypeOnPrefix(n, s, t, h.pos);
      DecodeAllOnPrefix(SchemaOf(ty.value), s, t, ty.pos);
    }
  }

  /**
    A frame cut short by any number of bytes is rejected, under its own protocol id
    and under every other one, even if the checksum should happen to agree.
   */
  lemma CutFrameRejected(info: PacketInfo, other: PacketInfo, n: int32, header: Header, p: Packet, k: nat)
    requires Writable(n, header, p) && (n > 1 || TypeOf(p) == 0) && k < |Frame(info, n, header, p)|
    requires other.rawFormat == info.rawFormat && other.prefixBytes == info.prefixBytes
    requires Framed(other, Frame(info, n, header, p)[..k])
    ensures Read(other, n, Frame(info, n, header, p)[..k], header.ops).Rejected?
  {
    hide Frame, ReadBody, EncodeAll, BodyOps, BodyVals, MemBits, ChecksumOk, Zeros, Framed, At;
    var f := Frame(info, n, header, p);
    var m := f[..k];
    FrameFacts(info, n, header, p);
    FrameTail(info, n, header, p);
    if Read(other, n, m, header.ops).Accepted? {
      AcceptedStart(other, n, m, header.ops);
      MemBitsSplit(f, k);
      CutBodyRejected(n, header, p, MemBits(f), MemBits(m), LeadBits(info));
    }
  }
}
