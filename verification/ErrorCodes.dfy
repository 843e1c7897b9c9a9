/** Which error `ReadPacket` reports for which datagram, said of the bytes and their decoding alone. */
module ErrorCodes {
  import opened Bits
  import opened Memory
  import opened Width
  import opened Schema
  import opened Crc32
  import opened Packets
  import opened Framing

  /** The checksum field is not the checksum of the protocol id, four zero bytes and the rest. */
  predicate Corrupt(info: PacketInfo, m: seq<byte>)
    requires Framed(info, m)
  {
    && !info.rawFormat
    && var k := info.prefixBytes;
       LeNum(m[k..k + 4]) != Crc(LeBytes(info.protocolId, 4) + ([0, 0, 0, 0] + m[k + 4..]), 0)
  }

  /** The bits of the type field. */
  function TypeWidth(n: int32): nat
    requires n > 0
  {
    if n == 1 then 0 else BitsRequired(0, n - 1)
  }

  /** What stands in the type field: zero when there is none. */
  function TypeAt(n: int32, s: seq<bool>, pos: nat): nat
    requires n > 0 && pos + TypeWidth(n) <= |s|
  {
    ValueOf(s[pos..pos + TypeWidth(n)])
  }

  // ---------------------------------------------------------------- how far a body reads

  predicate HeaderReads(s: seq<bool>, pos: nat, headerOps: seq<Op>)
    requires AllOk(headerOps)
  {
    DecodeAll(headerOps, s, pos).Got?
  }

  predicate TypeReads(n: int32, s: seq<bool>, pos: nat, headerOps: seq<Op>)
    requires n > 0 && AllOk(headerOps)
  {
    HeaderReads(s, pos, headerOps) && DecodeAll(headerOps, s, pos).pos + TypeWidth(n) <= |s|
  }

  predicate TypeKnown(n: int32, s: seq<bool>, pos: nat, headerOps: seq<Op>)
    requires n > 0 && AllOk(headerOps)
  {
    TypeReads(n, s, pos, headerOps) && Known(TypeAt(n, s, DecodeAll(headerOps, s, pos).pos))
  }

  predicate FieldsRead(n: int32, s: seq<bool>, pos: nat, headerOps: seq<Op>)
    requires n > 0 && AllOk(headerOps)
  {
    && TypeKnown(n, s, pos, headerOps)
    && var q := DecodeAll(headerOps, s, pos).pos;
       DecodeAll(SchemaOf(TypeAt(n, s, q)), s, q + TypeWidth(n)).Got?
  }

  /** The packet of the type and with the fields that stand in the datagram, and the header's values. */
  predicate IsRead(n: int32, s: seq<bool>, pos: nat, headerOps: seq<Op>, p: Packet, header: seq<Val>)
    requires n > 0 && AllOk(headerOps) && FieldsRead(n, s, pos, headerOps)
  {
    var h := DecodeAll(headerOps, s, pos);
    var t := TypeAt(n, s, h.pos);
    && InRange(p) && TypeOf(p) == t && header == h.value
    && Fields(p) == DecodeAll(SchemaOf(t), s, h.pos + TypeWidth(n)).value
  }

  /**
    Every result and its exact condition. There is no condition for an overflow: a
    raw datagram shorter than its prefix has nothing left for a type field or for
    any packet's fields, so one of these fails first.
   */
  ghost predicate Reported(info: PacketInfo, n: int32, m: seq<byte>, headerOps: seq<Op>, r: ReadResult)
    requires n > 0 && AllOk(headerOps) && Framed(info, m)
  {
    var s := MemBits(m);
    var pos := if info.rawFormat then 8 * Min(info.prefixBytes, |m|) else 8 * info.prefixBytes + 32;
    && (r == Rejected(ERROR_CRC32_MISMATCH) <==> Corrupt(info, m))
    && (r == Rejected(ERROR_SERIALIZE_HEADER_FAILED) <==> !Corrupt(info, m) && !HeaderReads(s, pos, headerOps))
    && (r == Rejected(ERROR_INVALID_PACKET_TYPE) <==>
          !Corrupt(info, m) && HeaderReads(s, pos, headerOps) && !TypeReads(n, s, pos, headerOps))
    && (r == Rejected(ERROR_CREATE_PACKET_FAILED) <==>
          !Corrupt(info, m) && TypeReads(n, s, pos, headerOps) && !TypeKnown(n, s, pos, headerOps))
    && (r == Rejected(ERROR_SERIALIZE_PACKET_FAILED) <==>
          !Corrupt(info, m) && TypeKnown(n, s, pos, headerOps) && !FieldsRead(n, s, pos, headerOps))
    && r != Rejected(ERROR_OVERFLOW)
    && (r.Accepted? <==> !Corrupt(info, m) && FieldsRead(n, s, pos, headerOps))
    && (r.Accepted? ==> IsRead(n, s, pos, headerOps, r.packet, r.header))
  }

  /** The type field is read as the number it spells. */
  lemma TypeIsNumber(n: int32, s: seq<bool>, pos: nat)
    requires n > 0
    ensures ReadType(n, s, pos)
            == if n > 1 && pos + TypeWidth(n) > |s| then Overflow
               else if n == 1 then Got(0, pos)
               else Got(TypeAt(n, s, pos), pos + TypeWidth(n))
  {
    hide BitsRequired, ValueOf, Pow2;
    if n > 1 && pos + TypeWidth(n) <= |s| {
      NarrowWidth(n - 1);
      ValueBound(s[pos..pos + TypeWidth(n)]);
      Pow2Monotone(TypeWidth(n), 31);
      Pow2Signed();
    }
  }

  lemma CorruptIffMismatch(info: PacketInfo, m: seq<byte>)
    requires Framed(info, m)
    ensures Corrupt(info, m) <==> !ChecksumOk(info, m)
  {
    hide Crc, LeBytes, LeNum;
    if !info.rawFormat {
      ExpectedFlat(info, m);
    }
  }

  /** Nothing can be read of a packet's fields at the end of the input. */
  lemma FieldsNeedBits(t: int, s: seq<bool>)
    requires Known(t)
    ensures !DecodeAll(SchemaOf(t), s, |s|).Got?
  {
    hide BitsRequired, ValueOf, FromOffset;
    assert !Decode(SchemaOf(t)[0], s, |s|).Got?;
  }

  lemma HeaderStays(s: seq<bool>, pos: nat, headerOps: seq<Op>)
    requires AllOk(headerOps) && pos <= |s| && HeaderReads(s, pos, headerOps)
    ensures pos <= DecodeAll(headerOps, s, pos).pos <= |s|
  {
    hide DecodeAll;
    DecodeAllLocal(headerOps, s, s, pos);
  }

  /** A body that starts at the end of its input never gets to its last field. */
  lemma ShortFails(n: int32, s: seq<bool>, headerOps: seq<Op>)
    requires n > 0 && AllOk(headerOps)
    ensures !FieldsRead(n, s, |s|, headerOps)
    ensures TypeReads(n, s, |s|, headerOps) ==> n == 1
  {
    hide DecodeAll, SchemaOf, BitsRequired, ValueOf;
    if HeaderReads(s, |s|, headerOps) {
      HeaderStays(s, |s|, headerOps);
      if TypeKnown(n, s, |s|, headerOps) {
        FieldsNeedBits(TypeAt(n, s, |s|), s);
      }
    }
  }

  /** What `IsRead` asks is what the reader makes of the decoded fields. */
  lemma FieldsMatch(t: int, s: seq<bool>, pos: nat, header: seq<Val>)
    requires Known(t) && pos <= |s| && DecodeAll(SchemaOf(t), s, pos).Got?
    ensures var r := ReadFields(t, s, pos, header, false);
            && r.Accepted? && r.header == header && InRange(r.packet) && TypeOf(r.packet) == t
            && Fields(r.packet) == DecodeAll(SchemaOf(t), s, pos).value
  {
    hide SchemaOf, DecodeAll, EncodeAll, FromFields, WireAll, Fields, InRange, TypeOf, AllFit, Exact;
    var d := DecodeAll(SchemaOf(t), s, pos);
    CanonicalAll(SchemaOf(t), s, pos);
    DecodedExact(t, d.value);
    DecodedInRange(t, d.value);
  }

  lemma BodyReported(n: int32, s: seq<bool>, pos: nat, headerOps: seq<Op>, failed: bool)
    requires n > 0 && AllOk(headerOps) && pos <= |s| && (failed ==> pos == |s|)
    ensures var r := ReadBody(n, s, pos, headerOps, failed);
            && (!HeaderReads(s, pos, headerOps) ==> r == Rejected(ERROR_SERIALIZE_HEADER_FAILED))
            && (HeaderReads(s, pos, headerOps) && !TypeReads(n, s, pos, headerOps) ==>
                  r == Rejected(ERROR_INVALID_PACKET_TYPE))
            && (TypeReads(n, s, pos, headerOps) && !TypeKnown(n, s, pos, headerOps) ==>
                  r == Rejected(ERROR_CREATE_PACKET_FAILED))
            && (TypeKnown(n, s, pos, headerOps) && !FieldsRead(n, s, pos, headerOps) ==>
                  r == Rejected(ERROR_SERIALIZE_PACKET_FAILED))
            && (FieldsRead(n, s, pos, headerOps) ==>
                  r.Accepted? && IsRead(n, s, pos, headerOps, r.packet, r.header))
  {
    hide DecodeAll, SchemaOf, Known, ReadType, BitsRequired, TypeAt, InRange, TypeOf, Fields, FromFields;
    if HeaderReads(s, pos, headerOps) {
      var h := DecodeAll(headerOps, s, pos);
      HeaderStays(s, pos, headerOps);
      TypeIsNumber(n, s, h.pos);
      UntypedZero(n, s, h.pos);
      if failed {
        ShortFails(n, s, headerOps);
      } else if FieldsRead(n, s, pos, headerOps) {
        FieldsMatch(TypeAt(n, s, h.pos), s, h.pos + TypeWidth(n), h.value);
      }
    }
  }

  lemma UntypedZero(n: int32, s: seq<bool>, pos: nat)
    requires n > 0 && pos <= |s|
    ensures n == 1 ==> TypeAt(n, s, pos) == 0
  {
    if n == 1 {
      assert s[pos..pos + 0] == [];
    }
  }

  /** `ReadPacket` reports exactly that. */
  lemma CodesExact(info: PacketInfo, n: int32, m: seq<byte>, headerOps: seq<Op>)
    requires n > 0 && AllOk(headerOps) && Framed(info, m)
    ensures Reported(info, n, m, headerOps, Read(info, n, m, headerOps))
  {
    hide MemBits, ReadBody, Corrupt, HeaderReads, TypeReads, TypeKnown, FieldsRead, IsRead, ChecksumOk;
    CorruptIffMismatch(info, m);
    BodyReported(n, MemBits(m), BodyStart(info, m), headerOps, info.rawFormat && info.prefixBytes > |m|);
    Ladder(n, MemBits(m), BodyStart(info, m), headerOps);
  }

  lemma Ladder(n: int32, s: seq<bool>, pos: nat, headerOps: seq<Op>)
    requires n > 0 && AllOk(headerOps)
    ensures FieldsRead(n, s, pos, headerOps) ==> TypeKnown(n, s, pos, headerOps)
    ensures TypeKnown(n, s, pos, headerOps) ==> TypeReads(n, s, pos, headerOps)
    ensures TypeReads(n, s, pos, headerOps) ==> HeaderReads(s, pos, headerOps)
  {
    hide DecodeAll, SchemaOf, Known, TypeAt, TypeWidth;
  }

  /**
    The overflow of a raw datagram shorter than its prefix has a code of its own in
    the source, but it never shows: the header fails, or the type field, or, when
    there is only one type, its fields.
   */
  lemma ShortRawDatagram(info: PacketInfo, n: int32, m: seq<byte>, headerOps: seq<Op>)
    requires n > 0 && AllOk(headerOps) && info.rawFormat && info.prefixBytes > |m|
    ensures Read(info, n, m, headerOps)
            == Rejected(if !HeaderReads(MemBits(m), 8 * |m|, headerOps) then ERROR_SERIALIZE_HEADER_FAILED
                        else if n > 1 then ERROR_INVALID_PACKET_TYPE
                        else ERROR_SERIALIZE_PACKET_FAILED)
  {
    hide MemBits, ReadBody, DecodeAll, SchemaOf;
    var s := MemBits(m);
    BodyReported(n, s, |s|, headerOps, true);
    ShortFails(n, s, headerOps);
    if HeaderReads(s, |s|, headerOps) {
      HeaderStays(s, |s|, headerOps);
      UntypedZero(n, s, |s|);
    }
  }

  /** A type that fits the field but is no packet's, for instance 3 or 100 with 106 types: the factory makes none. */
  lemma UnknownTypeReported(protocolId: u32, t: byte)
    requires t < 128 && !Known(t)
    ensures Read(PacketInfo(true, 0, protocolId), 106, [t], []) == Rejected(ERROR_CREATE_PACKET_FAILED)
  {
    hide BitsRequired, Read, BitsOf, ValueOf, Pow2, Known;
    var s := MemBits([t]);
    CodesExact(PacketInfo(true, 0, protocolId), 106, [t], []);
    SevenBits();
    MemBitsSingle(t);
    Pow2Small();
    ValueOfSmall(t, 8);
    ValueSplit(s, 7);
    ValueOfSmall(t, 7);
  }

  lemma SevenBits()
    ensures BitsRequired(0, 105) == 7 && Pow2(7) == 128
  {
    hide BitsRequired;
    assert Pow2(6) == 64 && Pow2(7) == 128;
    WidthIs(0, 105, 7);
  }
}
