/**
  The packet frame: caller's prefix bytes, a CRC-32 field, an optional header, the
  packet type, the packet's fields. This module says which bytes a packet becomes
  and what any bytes are read as, and proves what the frame guarantees.
 */
module Framing {
  import opened Bits
  import opened Memory
  import opened Registers
  import opened Width
  import opened Schema
  import opened Crc32
  import opened Packets

  const ERROR_CRC32_MISMATCH := 1
  const ERROR_INVALID_PACKET_TYPE := 2
  const ERROR_CREATE_PACKET_FAILED := 4
  const ERROR_SERIALIZE_HEADER_FAILED := 5
  const ERROR_SERIALIZE_PACKET_FAILED := 6
  const ERROR_OVERFLOW := 8

  datatype PacketInfo = PacketInfo(rawFormat: bool, prefixBytes: nat, protocolId: u32)

  /** A header object to write: its schema and values. No header is the empty schema. */
  datatype Header = Header(ops: seq<Op>, vals: seq<Val>) {
    predicate Ok() {
      AllOk(ops) && AllFit(ops, vals)
    }
  }

  const NO_HEADER := Header([], [])

  datatype ReadResult =
    | Accepted(packet: Packet, header: seq<Val>)
    | Rejected(error: int)

  // ---------------------------------------------------------------- writing

  /** Bits before the header: the prefix and, unless raw, the checksum field. */
  function LeadBits(info: PacketInfo): nat {
    8 * info.prefixBytes + (if info.rawFormat then 0 else 32)
  }

  /** The type field is present only when there is more than one packet type. */
  function TypeOps(n: int32): (ops: seq<Op>)
    requires n > 0
    ensures AllOk(ops)
  {
    if n > 1 then [Int(0, n - 1)] else []
  }

  function TypeVals(n: int32, t: int32): seq<Val> {
    if n > 1 then [VInt(t)] else []
  }

  /** The source's demands on a packet to be written with n packet types. */
  predicate Writable(n: int32, header: Header, p: Packet) {
    n > 0 && header.Ok() && InRange(p) && (n > 1 ==> TypeOf(p) < n)
  }

  /** All serialize calls after the checksum field. */
  function BodyOps(n: int32, header: Header, p: Packet): (ops: seq<Op>)
    requires Writable(n, header, p)
    ensures AllOk(ops)
  {
    FieldsFit(p);
    header.ops + TypeOps(n) + SchemaOf(TypeOf(p))
  }

  function BodyVals(n: int32, header: Header, p: Packet): (vals: seq<Val>)
    requires Writable(n, header, p)
    ensures AllFit(BodyOps(n, header, p), vals)
  {
    hide SchemaOf, Fields;
    FieldsFit(p);
    AllFitConcat(header.ops, header.vals, TypeOps(n), TypeVals(n, TypeOf(p)));
    AllFitConcat(header.ops + TypeOps(n), header.vals + TypeVals(n, TypeOf(p)), SchemaOf(TypeOf(p)), Fields(p));
    header.vals + TypeVals(n, TypeOf(p)) + Fields(p)
  }

  lemma AllFitConcat(ops: seq<Op>, vs: seq<Val>, more: seq<Op>, ws: seq<Val>)
    requires AllFit(ops, vs) && AllFit(more, ws)
    ensures AllFit(ops + more, vs + ws)
  {
    hide Fits;
  }

  /** Everything the write stream holds before the checksum is patched in. */
  function StreamBits(info: PacketInfo, n: int32, header: Header, p: Packet): seq<bool>
    requires Writable(n, header, p)
  {
    Zeros(LeadBits(info)) + EncodeAll(BodyOps(n, header, p), BodyVals(n, header, p), LeadBits(info))
  }

  /** The checksum of a message whose checksum field is still zero. */
  function FrameCrc(info: PacketInfo, unpatched: seq<byte>): (c: u32)
    requires info.prefixBytes <= |unpatched|
  {
    CrcBound(LeBytes(info.protocolId, 4), 0);
    CrcBound(unpatched[info.prefixBytes..], Crc(LeBytes(info.protocolId, 4), 0));
    Crc(unpatched[info.prefixBytes..], Crc(LeBytes(info.protocolId, 4), 0))
  }

  /** The datagram. */
  function Frame(info: PacketInfo, n: int32, header: Header, p: Packet): (m: seq<byte>)
    requires Writable(n, header, p)
  {
    hide BodyOps, BodyVals;
    var body := Message(StreamBits(info, n, header, p));
    if info.rawFormat then body
    else
      FieldFits(info, StreamBits(info, n, header, p));
      Splice(body, info.prefixBytes, LeBytes(FrameCrc(info, body), 4))
  }

  lemma FieldFits(info: PacketInfo, s: seq<bool>)
    requires |s| >= LeadBits(info) && !info.rawFormat
    ensures info.prefixBytes + 4 <= |Message(s)|
  {
  }

  lemma FrameHoldsField(info: PacketInfo, n: int32, header: Header, p: Packet)
    requires Writable(n, header, p) && !info.rawFormat
    ensures info.prefixBytes + 4 <= |Frame(info, n, header, p)|
  {
    hide BodyOps, BodyVals, EncodeAll, Message, FrameCrc, LeBytes;
    FieldFits(info, StreamBits(info, n, header, p));
  }

  /** A frame is as long as its stream, in whole bytes. */
  lemma FrameSize(info: PacketInfo, n: int32, header: Header, p: Packet, maxBytes: nat)
    requires Writable(n, header, p) && |StreamBits(info, n, header, p)| <= 8 * maxBytes
    ensures |Frame(info, n, header, p)| == (|StreamBits(info, n, header, p)| + 7) / 8 <= maxBytes
  {
    hide BodyOps, BodyVals, EncodeAll, FrameCrc, LeBytes, BytesOf;
  }

  // ---------------------------------------------------------------- reading

  /** Where the body of a datagram starts; a raw datagram may be shorter than its prefix. */
  function BodyStart(info: PacketInfo, m: seq<byte>): nat {
    if info.rawFormat then 8 * Min(info.prefixBytes, |m|) else 8 * info.prefixBytes + 32
  }

  /** The source's demand on a datagram: the checksum covers what follows the checksum field. */
  predicate Framed(info: PacketInfo, m: seq<byte>) {
    info.rawFormat || info.prefixBytes + 4 <= |m|
  }

  /** The checksum the reader computes: protocol id, four zero bytes, the rest. */
  function Expected(info: PacketInfo, m: seq<byte>): nat
    requires info.prefixBytes + 4 <= |m|
  {
    Crc(m[info.prefixBytes + 4..], Crc([0, 0, 0, 0], Crc(LeBytes(info.protocolId, 4), 0)))
  }

  /** The checksum field. */
  function Received(info: PacketInfo, m: seq<byte>): nat
    requires info.prefixBytes + 4 <= |m|
  {
    LeNum(m[info.prefixBytes..info.prefixBytes + 4])
  }

  predicate ChecksumOk(info: PacketInfo, m: seq<byte>)
    requires Framed(info, m)
  {
    info.rawFormat || Expected(info, m) == Received(info, m)
  }

  /** `ReadPacket` on arbitrary bytes. */
  function Read(info: PacketInfo, n: int32, m: seq<byte>, headerOps: seq<Op>): ReadResult
    requires n > 0 && Framed(info, m) && AllOk(headerOps)
  {
    if !ChecksumOk(info, m) then Rejected(ERROR_CRC32_MISMATCH)
    else ReadBody(n, MemBits(m), BodyStart(info, m), headerOps, info.rawFormat && info.prefixBytes > |m|)
  }

  function ReadBody(n: int32, s: seq<bool>, pos: nat, headerOps: seq<Op>, failed: bool): ReadResult
    requires n > 0 && AllOk(headerOps)
  {
    match DecodeAll(headerOps, s, pos)
    case Got(vals, q) =>
      (match ReadType(n, s, q)
       case Got(t, r) => if Known(t) then ReadFields(t, s, r, vals, failed) else Rejected(ERROR_CREATE_PACKET_FAILED)
       case _ => Rejected(ERROR_INVALID_PACKET_TYPE))
    case _ => Rejected(ERROR_SERIALIZE_HEADER_FAILED)
  }

  /** The type field is read without a range check. */
  function ReadType(n: int32, s: seq<bool>, pos: nat): Outcome<int>
    requires n > 0
  {
    if n == 1 then Got(0, pos) else
      var bits := BitsRequired(0, n - 1);
      if pos + bits > |s| then Overflow else
      TakeFits(s, pos, bits);
      Got(FromOffset(ValueOf(s[pos..pos + bits]), 0), pos + bits)
  }

  function ReadFields(t: int, s: seq<bool>, pos: nat, header: seq<Val>, failed: bool): ReadResult
    requires Known(t)
  {
    match DecodeAll(SchemaOf(t), s, pos)
    case Got(vs, q) =>
      DecodedFits(SchemaOf(t), s, pos);
      if failed then Rejected(ERROR_OVERFLOW) else Accepted(FromFields(t, vs), header)
    case _ => Rejected(ERROR_SERIALIZE_PACKET_FAILED)
  }

  lemma {:induction false} DecodedFits(ops: seq<Op>, s: seq<bool>, pos: nat)
    requires AllOk(ops) && DecodeAll(ops, s, pos).Got?
    ensures AllFit(ops, DecodeAll(ops, s, pos).value)
  {
    hide Decode, Fits;
    if ops != [] {
      DecodedOne(ops[0], s, pos);
      DecodedFits(ops[1..], s, Decode(ops[0], s, pos).pos);
    }
  }

  lemma DecodedOne(op: Op, s: seq<bool>, pos: nat)
    requires OpOk(op) && Decode(op, s, pos).Got?
    ensures Fits(op, Decode(op, s, pos).value)
  {
    hide BytesOf, BitsRequired, ValueOf, FromOffset;
  }

  // ---------------------------------------------------------------- round trip

  lemma {:induction false} EncodeConcat(a: seq<Op>, va: seq<Val>, b: seq<Op>, vb: seq<Val>, pos: nat)
    requires AllOk(a) && AllFit(a, va) && AllOk(b) && AllFit(b, vb)
    ensures AllFit(a + b, va + vb)
    ensures EncodeAll(a + b, va + vb, pos)
            == EncodeAll(a, va, pos) + EncodeAll(b, vb, pos + |EncodeAll(a, va, pos)|)
    decreases a
  {
    hide Encode, Fits;
    if a == [] {
      assert a + b == b && va + vb == vb;
    } else {
      assert (a + b)[1..] == a[1..] + b && (va + vb)[1..] == va[1..] + vb;
      EncodeConcat(a[1..], va[1..], b, vb, pos + |Encode(a[0], va[0], pos)|);
    }
  }

  lemma AtPrefix(s: seq<bool>, pos: nat, t: seq<bool>, z: seq<bool>)
    requires pos <= |s| && s[pos..] == t + z
    ensures At(s, pos, t)
  {
    assert s[pos..pos + |t|] == s[pos..][..|t|];
  }

  lemma TypeRead(n: int32, s: seq<bool>, pos: nat, t: int32)
    requires n > 1 && 0 <= t < n && At(s, pos, EncodeAll(TypeOps(n), TypeVals(n, t), pos))
    ensures ReadType(n, s, pos) == Got(t as int, pos + |EncodeAll(TypeOps(n), TypeVals(n, t), pos)|)
  {
    hide BitsRequired, BitsOf, ValueOf, Offset, FromOffset;
    assert EncodeAll(TypeOps(n), TypeVals(n, t), pos) == BitsOf(Offset(t, 0), BitsRequired(0, n - 1));
    RoundTripInt(t, 0, n - 1);
  }

  /** Header, type and fields read back wherever the body stands, and end where it ends. */
  lemma BodyEnds(n: int32, header: Header, p: Packet, s: seq<bool>, pos: nat)
    requires Writable(n, header, p) && (n > 1 || TypeOf(p) == 0)
    requires At(s, pos, EncodeAll(BodyOps(n, header, p), BodyVals(n, header, p), pos))
    ensures var h := DecodeAll(header.ops, s, pos);
            && h.Got? && h.value == WireAll(header.ops, header.vals)
            && var ty := ReadType(n, s, h.pos);
               && ty.Got? && ty.value == TypeOf(p) && Known(ty.value)
               && DecodeAll(SchemaOf(ty.value), s, ty.pos)
                  == Got(Fields(p), pos + |EncodeAll(BodyOps(n, header, p), BodyVals(n, header, p), pos)|)
  {
    hide SchemaOf, Fields, EncodeAll, DecodeAll, WireAll, ReadType, TypeOps, TypeVals, At, AllFit;
    var t := TypeOf(p);
    FieldsFit(p);
    var h := EncodeAll(header.ops, header.vals, pos);
    var q := pos + |h|;
    TypeFits(n, t);
    var e := EncodeAll(TypeOps(n), TypeVals(n, t), q);
    var r := q + |e|;
    BodySplits(n, header, p, pos);
    AtConcat(s, pos, h + e, EncodeAll(SchemaOf(t), Fields(p), r), r);
    AtConcat(s, pos, h, e, q);
    RoundTripAll(header.ops, header.vals, s, pos);
    if n > 1 {
      TypeRead(n, s, q, t);
    } else {
      NoType(n, t, s, q);
    }
    RoundTripAll(SchemaOf(t), Fields(p), s, r);
  }

  /** The body reads back wherever it stands. */
  lemma BodyReads(n: int32, header: Header, p: Packet, s: seq<bool>, pos: nat)
    requires Writable(n, header, p) && (n > 1 || TypeOf(p) == 0)
    requires At(s, pos, EncodeAll(BodyOps(n, header, p), BodyVals(n, header, p), pos))
    ensures ReadBody(n, s, pos, header.ops, false) == Accepted(p, WireAll(header.ops, header.vals))
  {
    hide SchemaOf, Fields, EncodeAll, DecodeAll, WireAll, ReadType, FromFields, At, AllFit, BodyOps, BodyVals;
    FieldsFit(p);
    BodyEnds(n, header, p, s, pos);
  }

  lemma TypeFits(n: int32, t: int32)
    requires n > 0 && 0 <= t && (n > 1 ==> t < n)
    ensures AllOk(TypeOps(n)) && AllFit(TypeOps(n), TypeVals(n, t))
  {
  }

  lemma TypeEncoding(n: int32, t: int32, pos: nat)
    requires n > 0 && 0 <= t && (n > 1 ==> t < n)
    ensures AllFit(TypeOps(n), TypeVals(n, t))
    ensures EncodeAll(TypeOps(n), TypeVals(n, t), pos)
            == if n > 1 then BitsOf(Offset(t, 0), BitsRequired(0, n - 1)) else []
  {
    hide BitsOf, BitsRequired, Offset;
  }

  lemma NoType(n: int32, t: int32, s: seq<bool>, pos: nat)
    requires n == 1
    ensures AllFit(TypeOps(n), TypeVals(n, t))
    ensures EncodeAll(TypeOps(n), TypeVals(n, t), pos) == [] && ReadType(n, s, pos) == Got(0, pos)
  {
  }

  /** The body is the header, then the type, then the fields. */
  lemma BodySplits(n: int32, header: Header, p: Packet, pos: nat)
    requires Writable(n, header, p)
    ensures Known(TypeOf(p)) && AllFit(SchemaOf(TypeOf(p)), Fields(p))
    ensures AllFit(TypeOps(n), TypeVals(n, TypeOf(p)))
    ensures var h := EncodeAll(header.ops, header.vals, pos);
            var e := EncodeAll(TypeOps(n), TypeVals(n, TypeOf(p)), pos + |h|);
            EncodeAll(BodyOps(n, header, p), BodyVals(n, header, p), pos)
            == h + e + EncodeAll(SchemaOf(TypeOf(p)), Fields(p), pos + |h| + |e|)
  {
    hide SchemaOf, Fields, EncodeAll, TypeOps, TypeVals, AllFit;
    FieldsFit(p);
    TypeFits(n, TypeOf(p));
    EncodeConcat(header.ops, header.vals, TypeOps(n), TypeVals(n, TypeOf(p)), pos);
    EncodeConcat(header.ops + TypeOps(n), header.vals + TypeVals(n, TypeOf(p)), SchemaOf(TypeOf(p)), Fields(p), pos);
  }

  // ---------------------------------------------------------------- the patched checksum

  /** Blocks that agree from byte k on agree from bit 8k on. */
  lemma TailBits(m: seq<byte>, w: seq<byte>, k: nat)
    requires k <= |m| && k <= |w| && m[k..] == w[k..]
    ensures MemBits(m)[8 * k..] == MemBits(w)[8 * k..]
  {
    hide MemBits;
    MemBitsSplit(m, k);
    MemBitsSplit(w, k);
  }

  lemma MessageBits(s: seq<bool>)
    ensures MemBits(Message(s)) == Pad8(s)
  {
    hide BytesOf, MemBits, AlignLen, Zeros;
    AlignLenAligns(|s|);
    MemBitsBytesOf(Pad8(s));
  }

  lemma ZerosSplit(a: nat, b: nat)
    ensures Zeros(a + b) == Zeros(a) + Zeros(b)
  {
    hide Zeros;
    BitsOfZero(a);
    BitsOfZero(b);
    BitsOfZero(a + b);
    ValueZeros(a);
    ValueZeros(b);
    ValuePadded(Zeros(a), b);
    BitsOfValue(Zeros(a) + Zeros(b));
  }

  /** Before patching, the checksum field is four zero bytes. */
  lemma FieldIsZero(s: seq<bool>, e: seq<bool>, p: nat)
    requires s == Zeros(8 * p + 32) + e
    ensures p + 4 <= |Message(s)| && Message(s)[p..p + 4] == [0, 0, 0, 0]
  {
    hide Message, Zeros, BytesOf, MemBits, AlignLen;
    var body := Message(s);
    MessageBits(s);
    MemBitsSlice(body, p, p + 4);
    ZerosSplit(8 * p, 32);
    assert Pad8(s)[8 * p..8 * (p + 4)] == Zeros(32);
    FourZeros();
    MemBitsInjective(body[p..p + 4], [0, 0, 0, 0]);
  }

  lemma FourZeros()
    ensures MemBits([0, 0, 0, 0]) == Zeros(32)
  {
    hide MemBits, Zeros;
    BitsOfZero(8);
    MemBitsSingle(0);
    MemBitsConcat([0], [0]);
    MemBitsConcat([0, 0], [0, 0]);
    assert [0] + [0] == [0, 0] && [0, 0] + [0, 0] == [0, 0, 0, 0];
    ZerosSplit(8, 8);
    ZerosSplit(16, 16);
  }

  /** The writer's checksum over the zero field is the reader's checksum with four zero bytes in its place. */
  lemma ChecksumAgrees(info: PacketInfo, body: seq<byte>, crc: u32, m: seq<byte>)
    requires info.prefixBytes + 4 <= |body|
    requires body[info.prefixBytes..info.prefixBytes + 4] == [0, 0, 0, 0]
    requires crc == FrameCrc(info, body) && m == Splice(body, info.prefixBytes, LeBytes(crc, 4))
    ensures Expected(info, m) == crc && Received(info, m) == crc
  {
    hide Crc, LeBytes, LeNum;
    var k := info.prefixBytes;
    assert body[k..] == [0, 0, 0, 0] + body[k + 4..];
    assert m[k + 4..] == body[k + 4..] && m[k..k + 4] == LeBytes(crc, 4);
    CrcChains([0, 0, 0, 0], body[k + 4..], Crc(LeBytes(info.protocolId, 4), 0));
    WordStored(crc);
  }

  lemma WordStored(w: u32)
    ensures LeNum(LeBytes(w, 4)) == w && MemBits(LeBytes(w, 4)) == BitsOf(w, 32)
  {
    hide LeNum, LeBytes, MemBits, BitsOf, Pow2;
    Pow2Literals();
    LeBytesBits(w, 4);
  }

  /** The facts about a written datagram that reading it relies on. */
  lemma FrameFacts(info: PacketInfo, n: int32, header: Header, p: Packet)
    requires Writable(n, header, p)
    ensures var m := Frame(info, n, header, p);
            var e := EncodeAll(BodyOps(n, header, p), BodyVals(n, header, p), LeadBits(info));
            && Framed(info, m) && ChecksumOk(info, m)
            && info.prefixBytes <= |m| && BodyStart(info, m) == LeadBits(info)
            && At(MemBits(m), LeadBits(info), e)
  {
    hide BodyOps, BodyVals, EncodeAll, Zeros, Message, MemBits, At, Pad8, FrameCrc, Expected, Received, LeBytes, Splice;
    var s := StreamBits(info, n, header, p);
    var body, m := Message(s), Frame(info, n, header, p);
    var e := EncodeAll(BodyOps(n, header, p), BodyVals(n, header, p), LeadBits(info));
    MessageBits(s);
    BodyStands(s, e, LeadBits(info));
    if !info.rawFormat {
      var k := info.prefixBytes + 4;
      FieldIsZero(s, e, info.prefixBytes);
      ChecksumAgrees(info, body, FrameCrc(info, body), m);
      SpliceTail(body, info.prefixBytes, LeBytes(FrameCrc(info, body), 4), k);
      TailBits(m, body, k);
      AtTail(MemBits(m), MemBits(body), 8 * k, e);
    }
  }

  lemma SpliceTail(m: seq<byte>, start: nat, block: seq<byte>, k: nat)
    requires start + |block| <= |m| && k == start + |block|
    ensures Splice(m, start, block)[k..] == m[k..]
  {
  }

  lemma BodyStands(s: seq<bool>, e: seq<bool>, pos: nat)
    requires s == Zeros(pos) + e
    ensures At(Pad8(s), pos, e)
  {
    hide Zeros, AlignLen;
    AtPrefix(Pad8(s), pos, e, Zeros(AlignLen(|s|)));
  }

  lemma AtTail(s: seq<bool>, t: seq<bool>, pos: nat, e: seq<bool>)
    requires |s| == |t| && pos <= |s| && s[pos..] == t[pos..] && At(t, pos, e)
    ensures At(s, pos, e)
  {
    assert s[pos..pos + |e|] == s[pos..][..|e|];
    assert t[pos..pos + |e|] == t[pos..][..|e|];
  }

  /**
    What is written is what is read: for every packet type, any protocol id, any number of
    prefix bytes and any header, framed or raw. With a single packet type no type is sent,
    so exactly the packets of type 0 come back.
   */
  lemma FramedRoundTrip(info: PacketInfo, n: int32, header: Header, p: Packet)
    requires Writable(n, header, p)
    ensures Framed(info, Frame(info, n, header, p))
    ensures Read(info, n, Frame(info, n, header, p), header.ops) == Accepted(p, WireAll(header.ops, header.vals))
            <==> (n > 1 || TypeOf(p) == 0)
  {
    hide Frame, Framed, ChecksumOk, BodyStart, BodyOps, BodyVals, EncodeAll, MemBits, At, WireAll, ReadBody, LeadBits;
    var m := Frame(info, n, header, p);
    FrameFacts(info, n, header, p);
    if n > 1 || TypeOf(p) == 0 {
      BodyReads(n, header, p, MemBits(m), BodyStart(info, m));
    } else {
      UntypedReadsA(MemBits(m), BodyStart(info, m), header.ops, info.rawFormat && info.prefixBytes > |m|);
    }
  }

  /** With one packet type, only packets of type 0 are ever produced. */
  lemma UntypedReadsA(s: seq<bool>, pos: nat, headerOps: seq<Op>, failed: bool)
    requires AllOk(headerOps)
    ensures var r := ReadBody(1, s, pos, headerOps, failed);
            r.Accepted? ==> TypeOf(r.packet) == 0
  {
    hide DecodeAll, SchemaOf;
  }

  // ---------------------------------------------------------------- rejection

  lemma CrcDiffers(a: seq<byte>, b: seq<byte>, seed: nat)
    requires Feed(Xor(seed, 0xFFFFFFFF), MemBits(a)) != Feed(Xor(seed, 0xFFFFFFFF), MemBits(b))
    ensures Crc(a, seed) != Crc(b, seed)
  {
    hide Feed, MemBits, Xor;
    var c := Xor(seed, 0xFFFFFFFF);
    if Crc(a, seed) == Crc(b, seed) {
      XorInjective(Feed(c, MemBits(a)), Feed(c, MemBits(b)), 0xFFFFFFFF);
    }
  }

  /** The expected checksum as one block. */
  lemma ExpectedFlat(info: PacketInfo, m: seq<byte>)
    requires info.prefixBytes + 4 <= |m|
    ensures Expected(info, m) == Crc(LeBytes(info.protocolId, 4) + ([0, 0, 0, 0] + m[info.prefixBytes + 4..]), 0)
  {
    hide Crc, LeBytes;
    var rest := m[info.prefixBytes + 4..];
    CrcChains(LeBytes(info.protocolId, 4), [0, 0, 0, 0] + rest, 0);
    CrcChains([0, 0, 0, 0], rest, Crc(LeBytes(info.protocolId, 4), 0));
  }

  /** Different protocol ids give different checksums of the same bytes. */
  lemma ProtocolsDiffer(info: PacketInfo, other: PacketInfo, m: seq<byte>)
    requires info.prefixBytes == other.prefixBytes && info.prefixBytes + 4 <= |m|
    requires info.protocolId != other.protocolId
    ensures Expected(info, m) != Expected(other, m)
  {
    hide Crc, LeBytes, Expected, MemBits, Feed, BitsOf, Xor;
    var tail := [0, 0, 0, 0] + m[info.prefixBytes + 4..];
    var a, b := LeBytes(info.protocolId, 4), LeBytes(other.protocolId, 4);
    ExpectedFlat(info, m);
    ExpectedFlat(other, m);
    WordStored(info.protocolId);
    WordStored(other.protocolId);
    MemBitsConcat(a, tail);
    MemBitsConcat(b, tail);
    ValuesDiffer(info.protocolId, other.protocolId);
    BurstDetected(0xFFFFFFFF, [], MemBits(a), MemBits(b), MemBits(tail));
    assert [] + MemBits(a) + MemBits(tail) == MemBits(a) + MemBits(tail);
    assert [] + MemBits(b) + MemBits(tail) == MemBits(b) + MemBits(tail);
    XorZero(0xFFFFFFFF);
    CrcDiffers(a + tail, b + tail, 0);
  }

  lemma ValuesDiffer(x: u32, y: u32)
    requires x != y
    ensures BitsOf(x, 32) != BitsOf(y, 32)
  {
    hide BitsOf, ValueOf, Pow2;
    Pow2Literals();
    ValueOfSmall(x, 32);
    ValueOfSmall(y, 32);
  }

  /** A packet written under one protocol id is rejected, as a checksum mismatch, under every other. */
  lemma WrongProtocolRejected(info: PacketInfo, other: PacketInfo, n: int32, header: Header, p: Packet,
                              n': int32, headerOps: seq<Op>)
    requires Writable(n, header, p) && n' > 0 && AllOk(headerOps)
    requires !info.rawFormat && !other.rawFormat && info.prefixBytes == other.prefixBytes
    requires info.protocolId != other.protocolId
    ensures Framed(other, Frame(info, n, header, p))
    ensures Read(other, n', Frame(info, n, header, p), headerOps) == Rejected(ERROR_CRC32_MISMATCH)
  {
    hide Frame, BodyOps, BodyVals, EncodeAll, At, ReadBody, Expected;
    FrameFacts(info, n, header, p);
    ProtocolsDiffer(info, other, Frame(info, n, header, p));
  }

  /** Two same-length datagrams that differ only inside 32 consecutive bits after the checksum field. */
  ghost predicate BurstAfterField(info: PacketInfo, m: seq<byte>, w: seq<byte>,
                                  x: seq<bool>, a: seq<bool>, b: seq<bool>, y: seq<bool>)
  {
    && |m| == |w| && info.prefixBytes + 4 <= |m| && 8 * (info.prefixBytes + 4) <= |x|
    && MemBits(m) == x + a + y && MemBits(w) == x + b + y
    && |a| == |b| <= 32 && a != b
  }

  lemma BurstChangesChecksum(info: PacketInfo, m: seq<byte>, w: seq<byte>,
                             x: seq<bool>, a: seq<bool>, b: seq<bool>, y: seq<bool>)
    requires BurstAfterField(info, m, w, x, a, b, y)
    ensures Expected(info, m) != Expected(info, w)
    ensures m[..info.prefixBytes + 4] == w[..info.prefixBytes + 4]
  {
    hide Crc, LeBytes, Expected, MemBits, Feed, Xor;
    var k := info.prefixBytes + 4;
    MemBitsSplit(m, k);
    MemBitsSplit(w, k);
    assert (x + a + y)[..8 * k] == x[..8 * k] == (x + b + y)[..8 * k];
    MemBitsInjective(m[..k], w[..k]);
    var lead := LeBytes(info.protocolId, 4) + [0, 0, 0, 0];
    var x' := MemBits(lead) + x[8 * k..];
    Flatten(info, m, k, lead, x', a, y, x);
    Flatten(info, w, k, lead, x', b, y, x);
    BurstDetected(0xFFFFFFFF, x', a, b, y);
    XorZero(0xFFFFFFFF);
    CrcDiffers(lead + m[k..], lead + w[k..], 0);
  }

  lemma Flatten(info: PacketInfo, m: seq<byte>, k: nat, lead: seq<byte>,
                x': seq<bool>, a: seq<bool>, y: seq<bool>, x: seq<bool>)
    requires k == info.prefixBytes + 4 <= |m| && 8 * k <= |x| && MemBits(m) == x + a + y
    requires lead == LeBytes(info.protocolId, 4) + [0, 0, 0, 0] && x' == MemBits(lead) + x[8 * k..]
    ensures Expected(info, m) == Crc(lead + m[k..], 0)
    ensures MemBits(lead + m[k..]) == x' + a + y
  {
    hide Crc, LeBytes, Expected, MemBits;
    ExpectedFlat(info, m);
    assert LeBytes(info.protocolId, 4) + ([0, 0, 0, 0] + m[k..]) == lead + m[k..];
    MemBitsConcat(lead, m[k..]);
    MemBitsSplit(m, k);
    DropPrefix(x, a, y, 8 * k, MemBits(lead));
  }

  lemma DropPrefix(x: seq<bool>, a: seq<bool>, y: seq<bool>, k: nat, lead: seq<bool>)
    requires k <= |x|
    ensures lead + (x + a + y)[k..] == lead + x[k..] + a + y
  {
    assert (x + a + y)[k..] == x[k..] + a + y;
  }

  /** Any change confined to 32 consecutive bits after the checksum field is detected. */
  lemma BurstRejected(info: PacketInfo, m: seq<byte>, w: seq<byte>, n: int32, headerOps: seq<Op>,
                      x: seq<bool>, a: seq<bool>, b: seq<bool>, y: seq<bool>)
    requires n > 0 && AllOk(headerOps) && !info.rawFormat
    requires BurstAfterField(info, m, w, x, a, b, y) && ChecksumOk(info, m)
    ensures Read(info, n, w, headerOps) == Rejected(ERROR_CRC32_MISMATCH)
  {
    hide BurstAfterField, Expected, ReadBody, MemBits, LeNum;
    BurstChangesChecksum(info, m, w, x, a, b, y);
    BurstSizes(info, m, w, x, a, b, y);
    SameField(m, w, info.prefixBytes);
  }

  lemma BurstSizes(info: PacketInfo, m: seq<byte>, w: seq<byte>,
                   x: seq<bool>, a: seq<bool>, b: seq<bool>, y: seq<bool>)
    requires BurstAfterField(info, m, w, x, a, b, y)
    ensures |m| == |w| && info.prefixBytes + 4 <= |m|
  {
  }

  lemma SameField(m: seq<byte>, w: seq<byte>, p: nat)
    requires p + 4 <= |m| && p + 4 <= |w| && m[..p + 4] == w[..p + 4]
    ensures m[p..p + 4] == w[p..p + 4]
  {
    assert m[p..p + 4] == m[..p + 4][p..];
    assert w[p..p + 4] == w[..p + 4][p..];
  }

  /** Any change confined to the checksum field (and the prefix, which it does not cover) is detected. */
  lemma FieldCorruptionRejected(info: PacketInfo, m: seq<byte>, w: seq<byte>, n: int32, headerOps: seq<Op>)
    requires n > 0 && AllOk(headerOps) && !info.rawFormat
    requires |m| == |w| && info.prefixBytes + 4 <= |m| && ChecksumOk(info, m)
    requires m[info.prefixBytes + 4..] == w[info.prefixBytes + 4..]
    requires m[info.prefixBytes..info.prefixBytes + 4] != w[info.prefixBytes..info.prefixBytes + 4]
    ensures Read(info, n, w, headerOps) == Rejected(ERROR_CRC32_MISMATCH)
  {
    hide Crc, LeNum, LeBytes, ReadBody;
    LeBytesOfNum(m[info.prefixBytes..info.prefixBytes + 4]);
    LeBytesOfNum(w[info.prefixBytes..info.prefixBytes + 4]);
  }

  // ---------------------------------------------------------------- arbitrary datagrams

  lemma ReadTypeLocal(n: int32, s: seq<bool>, t: seq<bool>, pos: nat)
    requires n > 0 && |s| == |t| && pos <= |s| && s[pos..] == t[pos..]
    ensures ReadType(n, s, pos) == ReadType(n, t, pos)
    ensures ReadType(n, s, pos).Got? ==> pos <= ReadType(n, s, pos).pos <= |s|
  {
    hide BitsRequired, ValueOf, FromOffset;
    if n > 1 {
      LocalSlice(s, t, pos, pos, BitsRequired(0, n - 1));
    }
  }

  lemma ReadFieldsLocal(ty: int, s: seq<bool>, t: seq<bool>, pos: nat, header: seq<Val>, failed: bool)
    requires Known(ty) && |s| == |t| && pos <= |s| && s[pos..] == t[pos..]
    ensures ReadFields(ty, s, pos, header, failed) == ReadFields(ty, t, pos, header, failed)
  {
    hide SchemaOf, DecodeAll, FromFields;
    DecodeAllLocal(SchemaOf(ty), s, t, pos);
  }

  lemma ReadBodyLocal(n: int32, s: seq<bool>, t: seq<bool>, pos: nat, headerOps: seq<Op>, failed: bool)
    requires n > 0 && AllOk(headerOps) && |s| == |t| && pos <= |s| && s[pos..] == t[pos..]
    ensures ReadBody(n, s, pos, headerOps, failed) == ReadBody(n, t, pos, headerOps, failed)
  {
    hide DecodeAll, ReadType, ReadFields;
    DecodeAllLocal(headerOps, s, t, pos);
    var h := DecodeAll(headerOps, s, pos);
    if h.Got? {
      TailOfTail(s, t, pos, h.pos);
      ReadTypeLocal(n, s, t, h.pos);
      var ty := ReadType(n, s, h.pos);
      if ty.Got? && Known(ty.value) {
        TailOfTail(s, t, h.pos, ty.pos);
        ReadFieldsLocal(ty.value, s, t, ty.pos, h.value, failed);
      }
    }
  }

  /** The prefix bytes are the caller's: whatever they hold, the packet reads the same. */
  lemma PrefixIsFree(info: PacketInfo, n: int32, m: seq<byte>, w: seq<byte>, headerOps: seq<Op>)
    requires n > 0 && AllOk(headerOps) && |m| == |w| && info.prefixBytes <= |m|
    requires Framed(info, m) && m[info.prefixBytes..] == w[info.prefixBytes..]
    ensures Read(info, n, m, headerOps) == Read(info, n, w, headerOps)
  {
    hide ReadBody, MemBits, Crc, LeBytes, LeNum;
    var k := info.prefixBytes;
    TailBits(m, w, k);
    TailOfTail(MemBits(m), MemBits(w), 8 * k, BodyStart(info, m));
    ReadBodyLocal(n, MemBits(m), MemBits(w), BodyStart(info, m), headerOps, false);
    if !info.rawFormat {
      assert m[k + 4..] == m[k..][4..] && w[k + 4..] == w[k..][4..];
      assert m[k..k + 4] == m[k..][..4] && w[k..k + 4] == w[k..][..4];
    }
  }

  lemma CanonicalType(n: int32, s: seq<bool>, pos: nat)
    requires n > 0 && pos <= |s| && ReadType(n, s, pos).Got?
    ensures var r := ReadType(n, s, pos);
            && pos <= r.pos <= |s|
            && (0 <= r.value < n ==>
                  && AllFit(TypeOps(n), TypeVals(n, r.value))
                  && EncodeAll(TypeOps(n), TypeVals(n, r.value), pos) == s[pos..r.pos])
  {
    hide BitsRequired, BitsOf, ValueOf, Offset, FromOffset;
    var r := ReadType(n, s, pos);
    if n > 1 && 0 <= r.value < n {
      TakeFits(s, pos, BitsRequired(0, n - 1));
      CanonicalInt(s[pos..r.pos], 0, n - 1);
    }
  }

  lemma SlicesJoin(s: seq<bool>, a: nat, b: nat, c: nat, d: nat)
    requires a <= b <= c <= d <= |s|
    ensures At(s, a, s[a..b] + s[b..c] + s[c..d])
  {
    assert s[a..b] + s[b..c] + s[c..d] == s[a..d];
  }

  lemma CanonicalFields(t: int, s: seq<bool>, pos: nat, header: seq<Val>)
    requires Known(t) && pos <= |s| && ReadFields(t, s, pos, header, false).Accepted?
    ensures var r := ReadFields(t, s, pos, header, false);
            var d := DecodeAll(SchemaOf(t), s, pos);
            && d.Got? && pos <= d.pos <= |s| && r.header == header
            && InRange(r.packet) && TypeOf(r.packet) == t && AllFit(SchemaOf(t), Fields(r.packet))
            && EncodeAll(SchemaOf(t), Fields(r.packet), pos) == s[pos..d.pos]
  {
    hide SchemaOf, DecodeAll, EncodeAll, FromFields, WireAll, Fields, InRange, TypeOf, AllFit, Exact;
    var d := DecodeAll(SchemaOf(t), s, pos);
    CanonicalAll(SchemaOf(t), s, pos);
    DecodedExact(t, d.value);
    DecodedInRange(t, d.value);
  }

  /** The type field spells a number that fits its width. */
  lemma TypeFitsField(n: int32, s: seq<bool>, pos: nat)
    requires n > 1 && ReadType(n, s, pos).Got?
    ensures 0 <= ReadType(n, s, pos).value < Pow2(BitsRequired(0, n - 1))
  {
    hide BitsRequired, ValueOf, Pow2;
    var field := s[pos..pos + BitsRequired(0, n - 1)];
    NarrowWidth(n - 1);
    ValueBound(field);
    Pow2Monotone(BitsRequired(0, n - 1), 31);
    Pow2Signed();
  }

  /** Readers whose type fields have the same width read the same. */
  lemma SameTypeField(n: int32, k: int32, s: seq<bool>, pos: nat, headerOps: seq<Op>, failed: bool)
    requires n > 1 && k > 1 && BitsRequired(0, n - 1) == BitsRequired(0, k - 1) && AllOk(headerOps)
    ensures ReadBody(n, s, pos, headerOps, failed) == ReadBody(k, s, pos, headerOps, failed)
  {
    hide BitsRequired, ValueOf, FromOffset, DecodeAll, ReadFields;
  }

  /** Enough packet types to write this packet again: the reader's number, or just enough for its type. */
  function TypesFor(n: int32, p: Packet): (k: int32)
    requires n > 0
    ensures TypeOf(p) < k && n <= k
  {
    if TypeOf(p) < n then n else TypeOf(p) + 1
  }

  /** The type of an accepted packet is the one read, and fits the reader's type field. */
  lemma AcceptedType(n: int32, s: seq<bool>, pos: nat, headerOps: seq<Op>)
    requires n > 0 && AllOk(headerOps) && pos <= |s| && ReadBody(n, s, pos, headerOps, false).Accepted?
    ensures var t := TypeOf(ReadBody(n, s, pos, headerOps, false).packet);
            Known(t) && if n == 1 then t == 0 else t < Pow2(BitsRequired(0, n - 1))
  {
    hide SchemaOf, DecodeAll, ReadType, ReadFields, Fields, InRange, TypeOf, Pow2, AllFit, EncodeAll;
    var h := DecodeAll(headerOps, s, pos);
    var ty := ReadType(n, s, h.pos);
    CanonicalAll(headerOps, s, pos);
    CanonicalType(n, s, h.pos);
    CanonicalFields(ty.value, s, ty.pos, h.value);
    if n > 1 {
      TypeFitsField(n, s, h.pos);
    } else {
      UntypedReadsA(s, pos, headerOps, false);
    }
  }

  /**
    On arbitrary bytes: an accepted packet is in range, and writing it again under the
    same header, with enough packet types for it, produces exactly the body bits read.
   */
  lemma AcceptedIsCanonical(n: int32, s: seq<bool>, pos: nat, headerOps: seq<Op>)
    requires n > 0 && AllOk(headerOps) && pos <= |s|
    requires ReadBody(n, s, pos, headerOps, false).Accepted?
    ensures var r := ReadBody(n, s, pos, headerOps, false);
            var header, k := Header(headerOps, r.header), TypesFor(n, r.packet);
            && InRange(r.packet) && header.Ok() && Writable(k, header, r.packet)
            && At(s, pos, EncodeAll(BodyOps(k, header, r.packet), BodyVals(k, header, r.packet), pos))
  {
    hide ReadBody, BodyOps, BodyVals, EncodeAll, At, TypeOf, InRange, Pow2;
    var r := ReadBody(n, s, pos, headerOps, false);
    var k := TypesFor(n, r.packet);
    AcceptedType(n, s, pos, headerOps);
    if k > n {
      SameWidth(n - 1, k - 1);
      SameTypeField(n, k, s, pos, headerOps, false);
    }
    AcceptedBelow(k, s, pos, headerOps);
  }

  lemma AcceptedBelow(n: int32, s: seq<bool>, pos: nat, headerOps: seq<Op>)
    requires n > 0 && AllOk(headerOps) && pos <= |s|
    requires ReadBody(n, s, pos, headerOps, false).Accepted?
    ensures var r := ReadBody(n, s, pos, headerOps, false);
            && InRange(r.packet) && Header(headerOps, r.header).Ok()
            && (TypeOf(r.packet) < n ==>
                  && Writable(n, Header(headerOps, r.header), r.packet)
                  && At(s, pos, EncodeAll(BodyOps(n, Header(headerOps, r.header), r.packet),
                                          BodyVals(n, Header(headerOps, r.header), r.packet), pos)))
  {
    hide SchemaOf, DecodeAll, EncodeAll, ReadType, ReadFields, WireAll, Fields, InRange, TypeOf, At, AllFit;
    hide BodyOps, BodyVals, TypeOps, TypeVals;
    var r, h := ReadBody(n, s, pos, headerOps, false), DecodeAll(headerOps, s, pos);
    var ty := ReadType(n, s, h.pos);
    CanonicalAll(headerOps, s, pos);
    CanonicalType(n, s, h.pos);
    CanonicalFields(ty.value, s, ty.pos, h.value);
    var d := DecodeAll(SchemaOf(ty.value), s, ty.pos);
    if TypeOf(r.packet) < n {
      BodySplits(n, Header(headerOps, r.header), r.packet, pos);
      SlicesJoin(s, pos, h.pos, ty.pos, d.pos);
    }
  }
}
