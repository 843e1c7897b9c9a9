/**
  Why a receiver of another protocol needs a buffer as large as the frames sent to it,
  or the same packet types: a frame cut short, read under another layout, whose
  checksum happens to agree.
 */
module CutWitness {
  import opened Bits
  import opened Memory
  import opened Registers
  import opened Width
  import opened Schema
  import opened Crc32
  import opened Packets
  import opened Framing
  import opened FrameCanonical

  const SENDER := PacketInfo(false, 1, 1)
  const RECEIVER := PacketInfo(false, 1, 0xd628b4c0)

  /** A stop request of 10 bytes, its cmd, sid and reason zero. */
  const SENT := ConnectionStopReq(0, 0, 0)
  const MISREAD := TestPacketA(-3, -17, -30)

  // ---------------------------------------------------------------- the checksum

  /** One byte fed to a register. */
  lemma ByteFed(c: bv32, d: bv32, b: byte, r: bv32)
    requires Num(d) == b && r == RegStep8(c ^ d)
    ensures Feed(Num(c), BitsOf(b, 8)) == Num(r)
  {
    hide Num, Feed, BitsOf, RegStep8, StepN, Xor, Pow2;
    Pow2Small();
    FeedBits(Num(c), b, 8);
    NumXor(c, d);
    NumStep8(c ^ d);
  }

  lemma {:induction false} StepNAdd(c: nat, a: nat, b: nat)
    ensures StepN(StepN(c, a), b) == StepN(c, a + b)
    decreases a
  {
    hide Step;
    if a > 0 {
      StepNAdd(Step(c), a - 1, b);
    }
  }

  /** Four bytes fed to a register. */
  lemma WordFed(c: bv32, d: bv32, w: u32, r1: bv32, r2: bv32, r3: bv32, r4: bv32)
    requires Num(d) == w && r1 == RegStep8(c ^ d) && r2 == RegStep8(r1) && r3 == RegStep8(r2) && r4 == RegStep8(r3)
    ensures Feed(Num(c), MemBits(LeBytes(w, 4))) == Num(r4)
  {
    hide Num, Feed, BitsOf, RegStep8, StepN, Xor, Pow2, MemBits, LeBytes;
    Pow2Literals();
    WordStored(w);
    FeedBits(Num(c), w, 32);
    NumXor(c, d);
    NumStep8(c ^ d);
    NumStep8(r1);
    NumStep8(r2);
    NumStep8(r3);
    var x := Num(c ^ d);
    StepNAdd(x, 8, 8);
    StepNAdd(x, 16, 8);
    StepNAdd(x, 24, 8);
  }

  lemma Numbers()
    ensures Num(0) == 0 && Num(1) == 1 && Num(103) == 103 && Num(0xd628b4c0) == 0xd628b4c0
  {
    hide Num;
    NumZero();
    NumByte(1);
    NumByte(103);
    NumBytes(0xd628b4c0, 0xc0, 0xd628b4);
    NumBytes(0xd628b4, 0xb4, 0xd628);
    NumBytes(0xd628, 0x28, 0xd6);
    NumBytes(0xd6, 0xd6, 0);
  }

  lemma SenderLead()
    ensures Feed(0xFFFFFFFF, MemBits(LeBytes(1, 4) + LeBytes(0, 4))) == Num(0x56772008)
  {
    hide Num, Feed, MemBits, LeBytes;
    Numbers();
    NumOnes();
    WordFed(0xffffffff, 1, 1, 0x5afa20e4, 0xa73ddc41, 0x17c4cda, 0x66074786);
    WordFed(0x66074786, 0, 0, 0x4bd2152, 0x85618df9, 0xc4e42b35, 0x56772008);
    MemBitsConcat(LeBytes(1, 4), LeBytes(0, 4));
    FeedConcat(0xFFFFFFFF, MemBits(LeBytes(1, 4)), MemBits(LeBytes(0, 4)));
  }

  lemma ReceiverLead()
    ensures Feed(0xFFFFFFFF, MemBits(LeBytes(0xd628b4c0, 4) + LeBytes(0, 4))) == Num(0xd90b01b0)
  {
    hide Num, Feed, MemBits, LeBytes;
    Numbers();
    NumOnes();
    WordFed(0xffffffff, 0xd628b4c0, 0xd628b4c0, 0xb64ffa76, 0xb9d09bf3, 0x240d733d, 0x584c4162);
    WordFed(0x584c4162, 0, 0, 0xa3e44c35, 0x5610206f, 0xdd5b6ce9, 0xd90b01b0);
    MemBitsConcat(LeBytes(0xd628b4c0, 4), LeBytes(0, 4));
    FeedConcat(0xFFFFFFFF, MemBits(LeBytes(0xd628b4c0, 4)), MemBits(LeBytes(0, 4)));
  }

  lemma FeedByte(c: nat, b: byte, rest: seq<byte>)
    ensures Feed(c, MemBits([b] + rest)) == Feed(Feed(c, BitsOf(b, 8)), MemBits(rest))
  {
    hide Feed, MemBits, BitsOf;
    MemBitsConcat([b], rest);
    MemBitsSingle(b);
    FeedConcat(c, BitsOf(b, 8), MemBits(rest));
  }

  /** The sender's register after 103, 0, 0 is the receiver's after 103. */
  lemma SameRegister()
    ensures Feed(Num(0x56772008), MemBits([103, 0, 0, 0, 0])) == Feed(Num(0xd90b01b0), MemBits([103, 0, 0]))
  {
    hide Num, Feed, MemBits, BitsOf;
    Numbers();
    ByteFed(0x56772008, 103, 103, 0xdd5b0be9);
    ByteFed(0xdd5b0be9, 0, 0, 0xd90b01d7);
    ByteFed(0xd90b01d7, 0, 0, 0x186e4c76);
    ByteFed(0xd90b01b0, 103, 103, 0x186e4c76);
    assert [103] + [0, 0, 0, 0] == [103, 0, 0, 0, 0] && [0] + [0, 0, 0] == [0, 0, 0, 0] && [0] + [0, 0] == [0, 0, 0];
    assert [103] + [0, 0] == [103, 0, 0];
    FeedByte(Num(0x56772008), 103, [0, 0, 0, 0]);
    FeedByte(Num(0xdd5b0be9), 0, [0, 0, 0]);
    FeedByte(Num(0xd90b01d7), 0, [0, 0]);
    FeedByte(Num(0xd90b01b0), 103, [0, 0]);
  }

  lemma LeadSplits(id: seq<byte>, rest: seq<byte>, zeros: seq<byte>)
    requires zeros == [0, 0, 0, 0]
    ensures zeros == LeBytes(0, 4)
    ensures Crc(id + (zeros + rest), 0)
            == Xor(Feed(Feed(0xFFFFFFFF, MemBits(id + zeros)), MemBits(rest)), 0xFFFFFFFF)
  {
    assert LeBytes(0, 1) == [0] && LeBytes(0, 2) == [0, 0] && LeBytes(0, 3) == [0, 0, 0];
    hide Feed, MemBits, Xor;
    XorZero(0xFFFFFFFF);
    assert id + (zeros + rest) == (id + zeros) + rest;
    MemBitsConcat(id + zeros, rest);
    FeedConcat(0xFFFFFFFF, MemBits(id + zeros), MemBits(rest));
  }

  /** Both checksums are the same. */
  lemma ChecksumsAgree(f: seq<byte>, m: seq<byte>)
    requires |f| == 10 && m == f[..8] && f[5..] == [103, 0, 0, 0, 0]
    ensures Expected(SENDER, f) == Expected(RECEIVER, m)
  {
    hide Expected, Crc, Feed, MemBits, LeBytes, Xor, Num;
    var zeros := [0, 0, 0, 0];
    ExpectedFlat(SENDER, f);
    ExpectedFlat(RECEIVER, m);
    assert m[5..] == f[5..][..3] == [103, 0, 0];
    LeadSplits(LeBytes(1, 4), f[5..], zeros);
    LeadSplits(LeBytes(0xd628b4c0, 4), m[5..], zeros);
    SenderLead();
    ReceiverLead();
    SameRegister();
  }

  // ---------------------------------------------------------------- the bits

  /** Bit strings of one length with one value, lowest bits first. */
  lemma PaddedBits(v: nat, n: nat, z: nat, s: seq<bool>)
    requires v < Pow2(n) && |s| == n + z && ValueOf(s) == v
    ensures s == BitsOf(v, n) + Zeros(z)
  {
    hide BitsOf, Zeros, ValueOf, Pow2;
    ValueOfSmall(v, n);
    ValuePadded(BitsOf(v, n), z);
    ValueInjective(s, BitsOf(v, n) + Zeros(z));
  }

  lemma Widths()
    ensures BitsRequired(0, 105) == 7 && BitsRequired(-10, 10) == 5
    ensures BitsRequired(-20, 20) == 6 && BitsRequired(-30, 30) == 6
  {
    hide BitsRequired, Pow2;
    SmallPowers();
    WidthIs(0, 105, 7);
    WidthIs(-10, 10, 5);
    WidthIs(-20, 20, 6);
    WidthIs(-30, 30, 6);
  }

  lemma SmallPowers()
    ensures Pow2(4) == 16 && Pow2(5) == 32 && Pow2(6) == 64 && Pow2(7) == 128
  {
  }

  /** A block of 103 followed by zero bytes, as bits. */
  lemma BlockBits(m: seq<byte>, z: nat)
    requires |m| > 0 && m[0] == 103 && 8 * |m| == 7 + z && LeNum(m[1..]) == 0
    ensures MemBits(m) == BitsOf(103, 7) + Zeros(z)
  {
    hide MemBits, BitsOf, Zeros, ValueOf, Pow2;
    SmallPowers();
    LeNumValue(m);
    PaddedBits(103, 7, z, MemBits(m));
  }

  lemma SentEncodes()
    ensures Writable(106, NO_HEADER, SENT)
    ensures EncodeAll(BodyOps(106, NO_HEADER, SENT), BodyVals(106, NO_HEADER, SENT), 40) == BitsOf(103, 7) + Zeros(32)
  {
    hide BitsOf, BitsRequired, Zeros, EncodeAll, BodyOps, BodyVals;
    Widths();
    BodySplits(106, NO_HEADER, SENT, 40);
    var e := BitsOf(103, 7);
    SentType(e);
    SentFields();
    EmptyEncodes(40);
    assert [] + e == e && |e| == 7;
  }

  lemma EmptyEncodes(pos: nat)
    ensures EncodeAll([], [], pos) == []
  {
  }

  lemma SentType(e: seq<bool>)
    requires e == BitsOf(103, 7)
    ensures EncodeAll(TypeOps(106), TypeVals(106, 103), 40) == e
  {
    hide BitsOf, BitsRequired, EncodeAll;
    Widths();
    assert Offset(103, 0) == 103;
    EncodeHead(TypeOps(106), TypeVals(106, 103), 40, e);
    EmptyEncodes(47);
    assert TypeOps(106)[1..] == [] && TypeVals(106, 103)[1..] == [] && e + [] == e;
  }

  lemma SentFields()
    ensures AllFit(SchemaOf(103), Fields(SENT))
    ensures EncodeAll(SchemaOf(103), Fields(SENT), 47) == Zeros(32)
  {
    hide BitsOf, Zeros, EncodeAll;
    var ops, vs := SchemaOf(103), Fields(SENT);
    BitsOfZero(8);
    BitsOfZero(16);
    EncodeHead(ops, vs, 47, Zeros(8));
    EncodeHead(ops[1..], vs[1..], 55, Zeros(16));
    EncodeHead(ops[1..][1..], vs[1..][1..], 71, Zeros(8));
    EmptyEncodes(79);
    assert ops[1..][1..][1..] == [] && vs[1..][1..][1..] == [] && Zeros(8) + [] == Zeros(8);
    ZerosSplit(16, 8);
    ZerosSplit(8, 24);
  }

  /** The frame: one prefix byte, the checksum, and a body of 103 and zeros. */
  lemma SentFrame()
    ensures Writable(106, NO_HEADER, SENT)
    ensures var f := Frame(SENDER, 106, NO_HEADER, SENT);
            |f| == 10 && f[5..] == [103, 0, 0, 0, 0] && ChecksumOk(SENDER, f)
  {
    hide BitsOf, Zeros, EncodeAll, BodyOps, BodyVals, Frame, MemBits, ChecksumOk, At, Writable;
    SentEncodes();
    FrameFacts(SENDER, 106, NO_HEADER, SENT);
    FrameTail(SENDER, 106, NO_HEADER, SENT);
    var f := Frame(SENDER, 106, NO_HEADER, SENT);
    ZerosSplit(32, 1);
    var body := [103, 0, 0, 0, 0];
    BlockNumber();
    BlockBits(body, 33);
    MemBitsSplit(f, 5);
    assert BitsOf(103, 7) + Zeros(32) + Zeros(1) == BitsOf(103, 7) + (Zeros(32) + Zeros(1));
    MemBitsInjective(f[5..], body);
  }

  /** Its first three body bytes begin with the fields of another packet. */
  lemma MisreadEncodes()
    ensures Writable(1, NO_HEADER, MISREAD)
    ensures EncodeAll(BodyOps(1, NO_HEADER, MISREAD), BodyVals(1, NO_HEADER, MISREAD), 40)
            == BitsOf(103, 7) + Zeros(10)
  {
    hide BitsOf, BitsRequired, Zeros, EncodeAll, BodyOps, BodyVals;
    Widths();
    BodySplits(1, NO_HEADER, MISREAD, 40);
    EmptyEncodes(40);
    MisreadFields();
    assert TypeOps(1) == [] && TypeVals(1, 0) == [];
    assert [] + [] + (BitsOf(103, 7) + Zeros(10)) == BitsOf(103, 7) + Zeros(10);
  }

  lemma MisreadFields()
    ensures AllFit(SchemaOf(0), Fields(MISREAD))
    ensures EncodeAll(SchemaOf(0), Fields(MISREAD), 40) == BitsOf(103, 7) + Zeros(10)
  {
    hide BitsOf, BitsRequired, Zeros, EncodeAll, ValueOf, Pow2;
    Widths();
    var ops, vs := SchemaOf(0), Fields(MISREAD);
    assert Offset(-3, -10) == 7 && Offset(-17, -20) == 3 && Offset(-30, -30) == 0;
    var a, b, c := BitsOf(7, 5), BitsOf(3, 6), BitsOf(0, 6);
    EncodeHead(ops, vs, 40, a);
    EncodeHead(ops[1..], vs[1..], 45, b);
    EncodeHead(ops[1..][1..], vs[1..][1..], 51, c);
    EmptyEncodes(57);
    assert ops[1..][1..][1..] == [] && vs[1..][1..][1..] == [] && c + [] == c;
    FieldsValue(a, b, c);
    SmallPowers();
    PaddedBits(103, 7, 10, a + (b + c));
  }

  lemma FieldsValue(a: seq<bool>, b: seq<bool>, c: seq<bool>)
    requires a == BitsOf(7, 5) && b == BitsOf(3, 6) && c == BitsOf(0, 6)
    ensures ValueOf(a + (b + c)) == 103
  {
    hide BitsOf, ValueOf, Pow2;
    SmallPowers();
    ValueOfSmall(7, 5);
    ValueOfSmall(3, 6);
    ValueOfSmall(0, 6);
    ValueConcat(b, c);
    ValueConcat(a, b + c);
    ShlZero(6);
    assert Shl(3, 5) == 96;
  }

  /**
    The frame, cut to 8 bytes by a smaller buffer, passes the receiver's checksum and
    is accepted as a packet that nobody sent: the receiver has one packet type, so it
    reads the type field as fields.
   */
  lemma CutFrameAccepted()
    ensures Writable(106, NO_HEADER, SENT) && SENDER.protocolId != RECEIVER.protocolId
    ensures var f := Frame(SENDER, 106, NO_HEADER, SENT);
            && |f| == 10 && Framed(RECEIVER, f[..8])
            && Read(RECEIVER, 1, f[..8], []) == Accepted(MISREAD, [])
  {
    hide BitsOf, Zeros, EncodeAll, BodyOps, BodyVals, Frame, MemBits, Expected, ReadBody, Writable, LeNum;
    SentFrame();
    var f := Frame(SENDER, 106, NO_HEADER, SENT);
    var m := f[..8];
    ChecksumsAgree(f, m);
    assert m[1..5] == f[1..5];
    assert m[5..] == f[5..][..3] == [103, 0, 0];
    BlockNumber();
    BlockBits([103, 0, 0], 17);
    MemBitsSplit(m, 5);
    ZerosSplit(10, 7);
    MisreadEncodes();
    var e := BitsOf(103, 7) + Zeros(10);
    assert MemBits(m)[40..] == e + Zeros(7);
    AtPrefix(MemBits(m), 40, e, Zeros(7));
    BodyReads(1, NO_HEADER, MISREAD, MemBits(m), 40);
  }

  lemma BlockNumber()
    ensures LeNum([103, 0, 0][1..]) == 0 && LeNum([103, 0, 0, 0, 0][1..]) == 0
  {
    assert LeNum([0]) == 0 && LeNum([0, 0]) == 0 && LeNum([0, 0, 0]) == 0;
    assert [103, 0, 0][1..] == [0, 0] && [103, 0, 0, 0, 0][1..] == [0, 0, 0, 0];
  }
}
