/**
  What a serialized message means: a schema is the list of serialize calls an
  object makes, and its wire form is a bit string. The streams run a schema over
  a packer or an unpacker; this module says what the result must be.
 */
module Schema {
  import opened Bits
  import opened Memory
  import opened Width

  /** One serialize call. */
  datatype Op =
    | Int(min: int32, max: int32)
    | UBits(n: nat)
    | Bool
    | UInt64
    | Bytes(n: nat)
    | Align

  /** The value passed to, or produced by, one serialize call. */
  datatype Val =
    | VInt(i: int32)
    | VBits(u: u32)
    | VBool(b: bool)
    | VLong(w: u64)
    | VBytes(m: seq<byte>)
    | VNone

  /** What the source asserts of the call's own arguments. */
  predicate OpOk(op: Op) {
    match op
    case Int(min, max) => min < max
    case UBits(n) => 0 < n <= 32
    case _ => true
  }

  predicate AllOk(ops: seq<Op>) {
    forall i :: 0 <= i < |ops| ==> OpOk(ops[i])
  }

  /** What the source asserts of the value written. A bit field may be wider than its width: it is masked. */
  predicate Fits(op: Op, v: Val) {
    match op
    case Int(min, max) => v.VInt? && min <= v.i <= max
    case UBits(_) => v.VBits?
    case Bool => v.VBool?
    case UInt64 => v.VLong?
    case Bytes(n) => v.VBytes? && |v.m| == n
    case Align => v.VNone?
  }

  predicate AllFit(ops: seq<Op>, vs: seq<Val>) {
    |ops| == |vs| && forall i :: 0 <= i < |ops| ==> Fits(ops[i], vs[i])
  }

  /** The value a reader gets back: bit fields lose the bits above their width. */
  function Wire(op: Op, v: Val): Val
    requires OpOk(op) && Fits(op, v)
  {
    match op
    case UBits(n) =>
      FieldBound(v.u, n);
      VBits(ValueOf(BitsOf(v.u, n)))
    case _ => v
  }

  function WireAll(ops: seq<Op>, vs: seq<Val>): seq<Val>
    requires AllOk(ops) && AllFit(ops, vs)
  {
    if ops == [] then [] else [Wire(ops[0], vs[0])] + WireAll(ops[1..], vs[1..])
  }

  lemma FieldBound(u: nat, n: nat)
    requires n <= 32
    ensures ValueOf(BitsOf(u, n)) < 0x1_0000_0000
  {
    ValueBound(BitsOf(u, n));
    Pow2Monotone(n, 32);
    Pow2Literals();
  }

  // ---------------------------------------------------------------- encoding

  /** The bits one call writes at position pos. */
  function Encode(op: Op, v: Val, pos: nat): seq<bool>
    requires OpOk(op) && Fits(op, v)
  {
    match op
    case Int(min, max) => BitsOf(Offset(v.i, min), BitsRequired(min, max))
    case UBits(n) => BitsOf(v.u, n)
    case Bool => [v.b]
    case UInt64 => BitsOf(v.w % 0x1_0000_0000, 32) + BitsOf(v.w / 0x1_0000_0000, 32)
    case Bytes(_) => Zeros(AlignLen(pos)) + MemBits(v.m)
    case Align => Zeros(AlignLen(pos))
  }

  function EncodeAll(ops: seq<Op>, vs: seq<Val>, pos: nat): seq<bool>
    requires AllOk(ops) && AllFit(ops, vs)
  {
    if ops == [] then [] else
      var e := Encode(ops[0], vs[0], pos);
      e + EncodeAll(ops[1..], vs[1..], pos + |e|)
  }

  /** The first call's bits, then the others'. */
  lemma EncodeHead(ops: seq<Op>, vs: seq<Val>, pos: nat, e: seq<bool>)
    requires AllOk(ops) && AllFit(ops, vs) && ops != [] && e == Encode(ops[0], vs[0], pos)
    ensures EncodeAll(ops, vs, pos) == e + EncodeAll(ops[1..], vs[1..], pos + |e|)
  {
    hide Encode;
  }

  /**
    What each call's bits spell, lowest bit first: an integer's distance from its
    minimum in the length of the largest, a masked bit field, one bit for a flag, all
    64 bits of a 64-bit value, zeros up to a byte boundary, and a block's own bytes.
   */
  lemma FieldNumber(op: Op, v: Val, pos: nat)
    requires OpOk(op) && Fits(op, v)
    ensures var e := Encode(op, v, pos);
            match op
            case Int(min, max) => |e| == BitLength(max - min) && ValueOf(e) == v.i - min
            case UBits(n) => |e| == n && ValueOf(e) == And(v.u, Pow2(n) - 1)
            case Bool => |e| == 1 && ValueOf(e) == if v.b then 1 else 0
            case UInt64 => |e| == 64 && ValueOf(e) == v.w
            case Bytes(n) =>
              var a := |e| - 8 * n;
              0 <= a < 8 && (pos + a) % 8 == 0 && ValueOf(e[..a]) == 0 && BytesOf(e[a..]) == v.m
            case Align => |e| < 8 && (pos + |e|) % 8 == 0 && ValueOf(e) == 0
  {
    hide BitsRequired, BitLength, BitsOf, ValueOf, And, Pow2, BytesOf, MemBits, Zeros, AlignLen, Offset;
    match op
    case Int(min, max) => IntNumber(v.i, min, max);
    case UBits(n) => AndMask(v.u, n);
    case Bool => FlagNumber(v.b);
    case UInt64 => LongNumber(v.w);
    case Bytes(n) =>
      AlignLenAligns(pos);
      ValueZeros(AlignLen(pos));
      BytesOfMemBits(v.m);
      BlockParts(Zeros(AlignLen(pos)), MemBits(v.m), Encode(op, v, pos), AlignLen(pos));
    case Align =>
      AlignLenAligns(pos);
      ValueZeros(AlignLen(pos));
  }

  lemma IntNumber(i: int32, min: int32, max: int32)
    requires min < max && min <= i <= max
    ensures |BitsOf(Offset(i, min), BitsRequired(min, max))| == BitLength(max - min)
    ensures ValueOf(BitsOf(Offset(i, min), BitsRequired(min, max))) == i - min
  {
    hide BitsRequired, BitLength, BitsOf, ValueOf, Pow2;
    WidthIsMinimal(min, max);
    OffsetRoundTrip(i, min, max);
    ValueOfSmall(Offset(i, min), BitsRequired(min, max));
  }

  lemma FlagNumber(b: bool)
    ensures ValueOf([b]) == if b then 1 else 0
  {
    assert ValueOf([b][1..]) == 0;
  }

  lemma LongNumber(w: u64)
    ensures ValueOf(BitsOf(w % 0x1_0000_0000, 32) + BitsOf(w / 0x1_0000_0000, 32)) == w
  {
    hide BitsOf, ValueOf, Pow2, Shl;
    var lo, hi := w % 0x1_0000_0000, w / 0x1_0000_0000;
    Pow2Literals();
    ValueOfSmall(lo, 32);
    ValueOfSmall(hi, 32);
    ValueConcat(BitsOf(lo, 32), BitsOf(hi, 32));
    ShlWord(hi);
  }

  lemma BlockParts(z: seq<bool>, t: seq<bool>, e: seq<bool>, a: nat)
    requires e == z + t && |z| == a
    ensures e[..a] == z && e[a..] == t
  {
  }

  // ---------------------------------------------------------------- decoding

  datatype Outcome<+T> =
    | Got(value: T, pos: nat)
    | Overflow
    | BadPadding
    | OutOfRange

  function TakeAlign(s: seq<bool>, pos: nat): Outcome<Val>
  {
    var a := AlignLen(pos);
    if pos + a > |s| then Overflow
    else if s[pos..pos + a] != Zeros(a) then BadPadding
    else Got(VNone, pos + a)
  }

  function TakeBytes(s: seq<bool>, pos: nat, n: nat): Outcome<Val>
  {
    var q := pos + 8 * n;
    if q > |s| then Overflow else Got(VBytes(BytesOf(s[pos..q])), q)
  }

  lemma TakeFits(s: seq<bool>, pos: nat, n: nat)
    requires n <= 32 && pos + n <= |s|
    ensures ValueOf(s[pos..pos + n]) < 0x1_0000_0000
  {
    ValueBound(s[pos..pos + n]);
    Pow2Monotone(n, 32);
    Pow2Literals();
  }

  /** What one call reads from the bits s at position pos. */
  function Decode(op: Op, s: seq<bool>, pos: nat): Outcome<Val>
    requires OpOk(op)
  {
    match op
    case Int(min, max) =>
      var n := BitsRequired(min, max);
      if pos + n > |s| then Overflow else
      TakeFits(s, pos, n);
      var i := FromOffset(ValueOf(s[pos..pos + n]), min);
      if i < min || i > max then OutOfRange else Got(VInt(i), pos + n)
    case UBits(n) =>
      if pos + n > |s| then Overflow else
      TakeFits(s, pos, n);
      Got(VBits(ValueOf(s[pos..pos + n])), pos + n)
    case Bool =>
      if pos + 1 > |s| then Overflow else Got(VBool(s[pos]), pos + 1)
    case UInt64 =>
      if pos + 64 > |s| then Overflow else
      TakeFits(s, pos, 32);
      TakeFits(s, pos + 32, 32);
      Got(VLong(ValueOf(s[pos..pos + 32]) + 0x1_0000_0000 * ValueOf(s[pos + 32..pos + 64])), pos + 64)
    case Bytes(n) =>
      var a := TakeAlign(s, pos);
      if !a.Got? then a else TakeBytes(s, a.pos, n)
    case Align => TakeAlign(s, pos)
  }

  function DecodeAll(ops: seq<Op>, s: seq<bool>, pos: nat): Outcome<seq<Val>>
    requires AllOk(ops)
  {
    if ops == [] then Got([], pos) else
      match Decode(ops[0], s, pos)
      case Got(v, p) =>
        (match DecodeAll(ops[1..], s, p)
         case Got(vs, q) => Got([v] + vs, q)
         case Overflow => Overflow
         case BadPadding => BadPadding
         case OutOfRange => OutOfRange)
      case Overflow => Overflow
      case BadPadding => BadPadding
      case OutOfRange => OutOfRange
  }

  // ---------------------------------------------------------------- after a failure

  /** Where the reader stands after a call, whatever its outcome. */
  function Stand(op: Op, s: seq<bool>, pos: nat): nat
    requires OpOk(op)
  {
    match op
    case Int(min, max) => StandField(s, pos, BitsRequired(min, max))
    case UBits(n) => StandField(s, pos, n)
    case Bool => StandField(s, pos, 1)
    case UInt64 => if pos + 32 > |s| then pos else StandField(s, pos + 32, 32)
    case Bytes(n) => if TakeAlign(s, pos).Got? then StandField(s, StandAlign(s, pos), 8 * n) else StandAlign(s, pos)
    case Align => StandAlign(s, pos)
  }

  /** A field that does not fit is not read. */
  function StandField(s: seq<bool>, pos: nat, n: nat): nat {
    if pos + n > |s| then pos else pos + n
  }

  /** Padding is read even when it turns out not to be zero. */
  function StandAlign(s: seq<bool>, pos: nat): nat {
    StandField(s, pos, AlignLen(pos))
  }

  /** A schema stops at its first failure. */
  function StandAll(ops: seq<Op>, s: seq<bool>, pos: nat): nat
    requires AllOk(ops)
  {
    if ops == [] then pos else
      match Decode(ops[0], s, pos)
      case Got(_, p) => StandAll(ops[1..], s, p)
      case _ => Stand(ops[0], s, pos)
  }

  /** The bits a call reads without counting them in the stream: those of a bad padding. */
  function Uncounted(op: Op, s: seq<bool>, pos: nat): nat
    requires OpOk(op)
  {
    if Decode(op, s, pos).BadPadding? then AlignLen(pos) else 0
  }

  function UncountedAll(ops: seq<Op>, s: seq<bool>, pos: nat): nat
    requires AllOk(ops)
  {
    if ops == [] then 0 else
      match Decode(ops[0], s, pos)
      case Got(_, p) => UncountedAll(ops[1..], s, p)
      case _ => Uncounted(ops[0], s, pos)
  }

  /** A run of calls, each made whatever became of the ones before it: where it ends. */
  function StandRun(ops: seq<Op>, s: seq<bool>, pos: nat): nat
    requires AllOk(ops)
  {
    if ops == [] then pos else StandRun(ops[1..], s, Stand(ops[0], s, pos))
  }

  /** And how many bits it read without counting them. */
  function UncountedRun(ops: seq<Op>, s: seq<bool>, pos: nat): nat
    requires AllOk(ops)
  {
    if ops == [] then 0 else Uncounted(ops[0], s, pos) + UncountedRun(ops[1..], s, Stand(ops[0], s, pos))
  }

  /** Which calls of a run succeed. */
  function SuccessRun(ops: seq<Op>, s: seq<bool>, pos: nat): seq<bool>
    requires AllOk(ops)
  {
    if ops == [] then [] else [Decode(ops[0], s, pos).Got?] + SuccessRun(ops[1..], s, Stand(ops[0], s, pos))
  }

  /** Some call of a run fails its padding check. */
  predicate PaddingFails(ops: seq<Op>, s: seq<bool>, pos: nat)
    requires AllOk(ops)
  {
    ops != [] && (Decode(ops[0], s, pos).BadPadding? || PaddingFails(ops[1..], s, Stand(ops[0], s, pos)))
  }

  /** A successful call stands where it says; a bad padding has at least one bit. */
  lemma StandAgrees(op: Op, s: seq<bool>, pos: nat)
    requires OpOk(op)
    ensures Decode(op, s, pos).Got? ==> Stand(op, s, pos) == Decode(op, s, pos).pos
    ensures Decode(op, s, pos).BadPadding? <==> Uncounted(op, s, pos) > 0
    ensures Decode(op, s, pos).BadPadding? ==> Stand(op, s, pos) == pos + AlignLen(pos)
  {
    hide BitsRequired, ValueOf, BytesOf, AlignLen, FromOffset;
    PaddingNotEmpty(s, pos);
  }

  lemma PaddingNotEmpty(s: seq<bool>, pos: nat)
    ensures TakeAlign(s, pos).BadPadding? ==> AlignLen(pos) > 0
  {
    if AlignLen(pos) == 0 && pos <= |s| {
      assert s[pos..pos + 0] == Zeros(0);
    }
  }

  /** A block call fails its padding check exactly when its alignment does. */
  lemma BlockPadding(s: seq<bool>, pos: nat, n: nat)
    ensures Decode(Bytes(n), s, pos).BadPadding? <==> TakeAlign(s, pos).BadPadding?
    ensures Uncounted(Bytes(n), s, pos) == if TakeAlign(s, pos).BadPadding? then AlignLen(pos) else 0
  {
    hide AlignLen, Zeros, BytesOf, TakeAlign;
    AlignOutcomes(s, pos);
  }

  lemma AlignOutcomes(s: seq<bool>, pos: nat)
    ensures !TakeAlign(s, pos).OutOfRange?
  {
  }

  /** The bytes a caller hands over always hold the padding up to the next one. */
  lemma PaddingFits(s: seq<bool>, pos: nat)
    requires |s| % 8 == 0 && pos <= |s|
    ensures pos + AlignLen(pos) <= |s| && !TakeAlign(s, pos).Overflow?
  {
  }

  lemma {:induction false} StandAllAgrees(ops: seq<Op>, s: seq<bool>, pos: nat)
    requires AllOk(ops)
    ensures DecodeAll(ops, s, pos).Got? ==> StandAll(ops, s, pos) == DecodeAll(ops, s, pos).pos
    ensures DecodeAll(ops, s, pos).BadPadding? <==> UncountedAll(ops, s, pos) > 0
  {
    hide Decode, Stand, Uncounted;
    if ops != [] {
      StandAgrees(ops[0], s, pos);
      if Decode(ops[0], s, pos).Got? {
        StandAllAgrees(ops[1..], s, Decode(ops[0], s, pos).pos);
      }
    }
  }

  /** A run counts every bit it reads exactly when no call of it fails its padding check. */
  lemma {:induction false} RunCounts(ops: seq<Op>, s: seq<bool>, pos: nat)
    requires AllOk(ops)
    ensures UncountedRun(ops, s, pos) == 0 <==> !PaddingFails(ops, s, pos)
  {
    hide Decode, Stand, Uncounted;
    if ops != [] {
      StandAgrees(ops[0], s, pos);
      RunCounts(ops[1..], s, Stand(ops[0], s, pos));
    }
  }

  // ---------------------------------------------------------------- round trip

  /** The bits t stand in s at position pos. */
  ghost predicate At(s: seq<bool>, pos: nat, t: seq<bool>) {
    pos + |t| <= |s| && s[pos..pos + |t|] == t
  }

  lemma AtConcat(s: seq<bool>, pos: nat, a: seq<bool>, b: seq<bool>, mid: nat)
    requires At(s, pos, a + b) && mid == pos + |a|
    ensures At(s, pos, a) && At(s, mid, b)
  {
    assert a == (a + b)[..|a|] && b == (a + b)[|a|..];
  }

  lemma RoundTrip(op: Op, v: Val, s: seq<bool>, pos: nat)
    requires OpOk(op) && Fits(op, v)
    requires At(s, pos, Encode(op, v, pos))
    ensures Decode(op, s, pos) == Got(Wire(op, v), pos + |Encode(op, v, pos)|)
  {
    hide BitsRequired, BitsOf, ValueOf, BytesOf, MemBits, Zeros, AlignLen, FromOffset, Offset;
    match op
    case Int(min, max) => RoundTripInt(v.i, min, max);
    case UBits(n) =>
    case Bool =>
    case UInt64 => RoundTripLong(v.w, s, pos);
    case Bytes(n) => RoundTripBytes(v.m, s, pos);
    case Align =>
  }

  lemma RoundTripBytes(m: seq<byte>, s: seq<bool>, pos: nat)
    requires At(s, pos, Zeros(AlignLen(pos)) + MemBits(m))
    ensures Decode(Bytes(|m|), s, pos) == Got(VBytes(m), pos + AlignLen(pos) + 8 * |m|)
  {
    hide BytesOf, MemBits, Zeros, AlignLen, At, TakeAlign, TakeBytes;
    var p := pos + AlignLen(pos);
    AtConcat(s, pos, Zeros(AlignLen(pos)), MemBits(m), p);
    TakeAlignAt(s, pos);
    BytesOfMemBits(m);
    TakeBytesAt(s, p, m, MemBits(m), |m|);
  }

  lemma TakeBytesAt(s: seq<bool>, p: nat, m: seq<byte>, t: seq<bool>, n: nat)
    requires At(s, p, t) && |t| == 8 * n && BytesOf(t) == m
    ensures TakeBytes(s, p, n) == Got(VBytes(m), p + 8 * n)
  {
    hide BytesOf, At;
    SliceAt(s, p, t, p + 8 * n);
  }

  lemma SliceAt(s: seq<bool>, p: nat, t: seq<bool>, q: nat)
    requires At(s, p, t) && q == p + |t|
    ensures q <= |s| && s[p..q] == t
  {
  }

  lemma TakeAlignAt(s: seq<bool>, pos: nat)
    requires At(s, pos, Zeros(AlignLen(pos)))
    ensures TakeAlign(s, pos) == Got(VNone, pos + AlignLen(pos))
  {
    hide Zeros, AlignLen;
  }

  lemma RoundTripInt(i: int32, min: int32, max: int32)
    requires min < max && min <= i <= max
    ensures ValueOf(BitsOf(Offset(i, min), BitsRequired(min, max))) == Offset(i, min)
    ensures FromOffset(Offset(i, min), min) == i
  {
    hide BitsRequired;
    OffsetRoundTrip(i, min, max);
    ValueOfSmall(Offset(i, min), BitsRequired(min, max));
  }

  lemma RoundTripLong(w: u64, s: seq<bool>, pos: nat)
    requires At(s, pos, BitsOf(w % 0x1_0000_0000, 32) + BitsOf(w / 0x1_0000_0000, 32))
    ensures Decode(UInt64, s, pos) == Got(VLong(w), pos + 64)
  {
    hide Pow2, BitsOf, ValueOf;
    var lo, hi := w % 0x1_0000_0000, w / 0x1_0000_0000;
    AtConcat(s, pos, BitsOf(lo, 32), BitsOf(hi, 32), pos + 32);
    Pow2Literals();
    ValueOfSmall(lo, 32);
    ValueOfSmall(hi, 32);
  }

  /**
    Reading back with the same schema returns every value and consumes exactly
    the bits written, whatever precedes and follows them.
   */
  lemma {:induction false} RoundTripAll(ops: seq<Op>, vs: seq<Val>, s: seq<bool>, pos: nat)
    requires AllOk(ops) && AllFit(ops, vs)
    requires At(s, pos, EncodeAll(ops, vs, pos))
    ensures DecodeAll(ops, s, pos) == Got(WireAll(ops, vs), pos + |EncodeAll(ops, vs, pos)|)
  {
    hide Encode, Decode, Wire, At;
    if ops != [] {
      var e := Encode(ops[0], vs[0], pos);
      AtConcat(s, pos, e, EncodeAll(ops[1..], vs[1..], pos + |e|), pos + |e|);
      RoundTrip(ops[0], vs[0], s, pos);
      RoundTripAll(ops[1..], vs[1..], s, pos + |e|);
    }
  }

  /** Values that already fit their fields come back unchanged. */
  lemma {:induction false} WireExact(ops: seq<Op>, vs: seq<Val>)
    requires AllOk(ops) && AllFit(ops, vs)
    requires forall i :: 0 <= i < |ops| && ops[i].UBits? ==> vs[i].u < Pow2(ops[i].n)
    ensures WireAll(ops, vs) == vs
  {
    if ops != [] {
      if ops[0].UBits? {
        ValueOfSmall(vs[0].u, ops[0].n);
      }
      WireExact(ops[1..], vs[1..]);
    }
  }

  // ---------------------------------------------------------------- canonical form

  /** A successful read determines the bits it consumed: there is one wire form per value. */
  lemma Canonical(op: Op, s: seq<bool>, pos: nat)
    requires OpOk(op) && pos <= |s| && Decode(op, s, pos).Got?
    ensures var r := Decode(op, s, pos);
            && Fits(op, r.value) && Wire(op, r.value) == r.value
            && pos <= r.pos <= |s| && Encode(op, r.value, pos) == s[pos..r.pos]
  {
    hide BitsRequired, BitsOf, ValueOf, BytesOf, MemBits, Zeros, AlignLen, FromOffset, Offset, TakeBytes;
    var r := Decode(op, s, pos);
    match op
    case Int(min, max) =>
      TakeFits(s, pos, BitsRequired(min, max));
      CanonicalInt(s[pos..r.pos], min, max);
    case UBits(n) => BitsOfValue(s[pos..r.pos]);
    case Bool =>
    case UInt64 =>
      TakeFits(s, pos, 32);
      CanonicalLong(s, pos, r.value.w);
    case Bytes(n) => CanonicalBlock(n, s, pos);
    case Align =>
  }

  lemma CanonicalBlock(n: nat, s: seq<bool>, pos: nat)
    requires pos <= |s| && Decode(Bytes(n), s, pos).Got?
    ensures var r := Decode(Bytes(n), s, pos);
            && Fits(Bytes(n), r.value) && pos <= r.pos <= |s|
            && Encode(Bytes(n), r.value, pos) == s[pos..r.pos]
  {
    hide BytesOf, MemBits, Zeros, AlignLen;
    CanonicalBytes(s, pos, pos + AlignLen(pos), n);
  }

  lemma CanonicalBytes(s: seq<bool>, pos: nat, p: nat, n: nat)
    requires pos <= p && p + 8 * n <= |s|
    ensures |BytesOf(s[p..p + 8 * n])| == n
    ensures s[pos..p] + MemBits(BytesOf(s[p..p + 8 * n])) == s[pos..p + 8 * n]
  {
    hide MemBits, BytesOf;
    MemBitsBytesOf(s[p..p + 8 * n]);
  }

  lemma OffsetOf(u: u32, min: int32)
    requires min + u < 0x8000_0000
    ensures Offset(min + u, min) == u
  {
  }

  lemma CanonicalInt(t: seq<bool>, min: int32, max: int32)
    requires min < max && |t| == BitsRequired(min, max)
    requires ValueOf(t) < 0x1_0000_0000 && min <= FromOffset(ValueOf(t), min) <= max
    ensures BitsOf(Offset(FromOffset(ValueOf(t), min), min), BitsRequired(min, max)) == t
  {
    hide BitsRequired, ValueOf, BitsOf, FromOffset;
    AcceptedOffsets(ValueOf(t), min, max);
    OffsetOf(ValueOf(t), min);
    BitsOfValue(t);
  }

  lemma CanonicalLong(s: seq<bool>, pos: nat, w: nat)
    requires pos + 64 <= |s|
    requires ValueOf(s[pos..pos + 32]) < 0x1_0000_0000
    requires w == ValueOf(s[pos..pos + 32]) + 0x1_0000_0000 * ValueOf(s[pos + 32..pos + 64])
    ensures BitsOf(w % 0x1_0000_0000, 32) + BitsOf(w / 0x1_0000_0000, 32) == s[pos..pos + 64]
  {
    hide ValueOf, BitsOf;
    var lo, hi := s[pos..pos + 32], s[pos + 32..pos + 64];
    BitsOfValue(lo);
    BitsOfValue(hi);
    DivModWord(w, ValueOf(lo), ValueOf(hi));
    assert lo + hi == s[pos..pos + 64];
  }

  /** On arbitrary input: whatever a schema accepts, writing it again reproduces the consumed bits. */
  lemma {:induction false} CanonicalAll(ops: seq<Op>, s: seq<bool>, pos: nat)
    requires AllOk(ops) && pos <= |s| && DecodeAll(ops, s, pos).Got?
    ensures var r := DecodeAll(ops, s, pos);
            && AllFit(ops, r.value) && WireAll(ops, r.value) == r.value
            && pos <= r.pos <= |s| && EncodeAll(ops, r.value, pos) == s[pos..r.pos]
  {
    hide Encode, Decode, Wire, Fits;
    if ops != [] {
      var r, d := DecodeAll(ops, s, pos), Decode(ops[0], s, pos);
      Canonical(ops[0], s, pos);
      CanonicalAll(ops[1..], s, d.pos);
      assert s[pos..d.pos] + s[d.pos..r.pos] == s[pos..r.pos];
      assert r.value[1..] == DecodeAll(ops[1..], s, d.pos).value;
    }
  }

  /** No two value lists share a wire form, and no wire form is a prefix of another. */
  lemma PrefixFree(ops: seq<Op>, vs: seq<Val>, ws: seq<Val>, pos: nat)
    requires AllOk(ops) && AllFit(ops, vs) && AllFit(ops, ws)
    requires EncodeAll(ops, vs, pos) <= EncodeAll(ops, ws, pos)
    ensures WireAll(ops, vs) == WireAll(ops, ws)
    ensures EncodeAll(ops, vs, pos) == EncodeAll(ops, ws, pos)
  {
    hide EncodeAll, DecodeAll, WireAll;
    var s := Zeros(pos) + EncodeAll(ops, ws, pos);
    assert s[pos..] == EncodeAll(ops, ws, pos);
    RoundTripAll(ops, vs, s, pos);
    RoundTripAll(ops, ws, s, pos);
  }

  // ---------------------------------------------------------------- locality

  lemma SliceTail(s: seq<bool>, t: seq<bool>, pos: nat, i: nat, j: nat)
    requires |s| == |t| && pos <= i <= j <= |s| && s[pos..] == t[pos..]
    ensures s[i..j] == t[i..j]
  {
    forall k | i <= k < j
      ensures s[k] == t[k]
    {
      assert s[k] == s[pos..][k - pos] && t[k] == t[pos..][k - pos];
    }
  }

  /** A read looks only at bits from its position on, and never moves backwards. */
  lemma DecodeLocal(op: Op, s: seq<bool>, t: seq<bool>, pos: nat)
    requires OpOk(op) && |s| == |t| && pos <= |s| && s[pos..] == t[pos..]
    ensures Decode(op, s, pos) == Decode(op, t, pos)
    ensures Decode(op, s, pos).Got? ==> pos <= Decode(op, s, pos).pos <= |s|
  {
    hide BitsRequired, ValueOf, BytesOf, Zeros, AlignLen, FromOffset;
    var a := pos + AlignLen(pos);
    if a <= |s| {
      SliceTail(s, t, pos, pos, a);
    }
    match op
    case Int(min, max) => LocalSlice(s, t, pos, pos, BitsRequired(min, max));
    case UBits(n) => LocalSlice(s, t, pos, pos, n);
    case Bool =>
      if pos < |s| {
        assert s[pos] == s[pos..][0] && t[pos] == t[pos..][0];
      }
    case UInt64 =>
      LocalSlice(s, t, pos, pos, 32);
      if pos + 64 <= |s| {
        SliceTail(s, t, pos, pos + 32, pos + 64);
      }
    case Bytes(n) => LocalSlice(s, t, pos, a, 8 * n);
    case Align =>
  }

  lemma TailOfTail(s: seq<bool>, t: seq<bool>, pos: nat, q: nat)
    requires |s| == |t| && pos <= q <= |s| && s[pos..] == t[pos..]
    ensures s[q..] == t[q..]
  {
    SliceTail(s, t, pos, q, |s|);
    assert s[q..|s|] == s[q..] && t[q..|t|] == t[q..];
  }

  lemma LocalSlice(s: seq<bool>, t: seq<bool>, pos: nat, p: nat, n: nat)
    requires |s| == |t| && pos <= |s| && pos <= p && s[pos..] == t[pos..]
    ensures p + n <= |s| ==> s[p..p + n] == t[p..p + n]
  {
    if p + n <= |s| {
      SliceTail(s, t, pos, p, p + n);
    }
  }

  lemma {:induction false} DecodeAllLocal(ops: seq<Op>, s: seq<bool>, t: seq<bool>, pos: nat)
    requires AllOk(ops) && |s| == |t| && pos <= |s| && s[pos..] == t[pos..]
    ensures DecodeAll(ops, s, pos) == DecodeAll(ops, t, pos)
    ensures DecodeAll(ops, s, pos).Got? ==> pos <= DecodeAll(ops, s, pos).pos <= |s|
  {
    hide Decode;
    if ops != [] {
      DecodeLocal(ops[0], s, t, pos);
      var d := Decode(ops[0], s, pos);
      if d.Got? {
        TailOfTail(s, t, pos, d.pos);
        DecodeAllLocal(ops[1..], s, t, d.pos);
      }
    }
  }

  // ---------------------------------------------------------------- measuring

  /** The bits a measure stream adds for one call: alignment is assumed to cost 7. */
  function Measure(op: Op): nat
    requires OpOk(op)
  {
    match op
    case Int(min, max) => BitsRequired(min, max)
    case UBits(n) => n
    case Bool => 1
    case UInt64 => 64
    case Bytes(n) => 7 + 8 * n
    case Align => 7
  }

  function MeasureAll(ops: seq<Op>): nat
    requires AllOk(ops)
  {
    if ops == [] then 0 else Measure(ops[0]) + MeasureAll(ops[1..])
  }

  /** Alignments performed, counting the one inside each bytes call. */
  function Aligns(ops: seq<Op>): nat {
    if ops == [] then 0 else (if ops[0].Bytes? || ops[0].Align? then 1 else 0) + Aligns(ops[1..])
  }

  /** Measuring never undercounts, and overcounts by at most 7 bits an alignment. */
  lemma {:induction false} MeasureBounds(ops: seq<Op>, vs: seq<Val>, pos: nat)
    requires AllOk(ops) && AllFit(ops, vs)
    ensures |EncodeAll(ops, vs, pos)| <= MeasureAll(ops) <= |EncodeAll(ops, vs, pos)| + 7 * Aligns(ops)
  {
    hide Encode, Measure, Fits;
    if ops != [] {
      MeasureOne(ops[0], vs[0], pos);
      MeasureBounds(ops[1..], vs[1..], pos + |Encode(ops[0], vs[0], pos)|);
    }
  }

  lemma MeasureOne(op: Op, v: Val, pos: nat)
    requires OpOk(op) && Fits(op, v)
    ensures |Encode(op, v, pos)| <= Measure(op)
            <= |Encode(op, v, pos)| + (if op.Bytes? || op.Align? then 7 else 0)
  {
    hide BitsRequired, BitsOf, MemBits, Zeros, Offset;
  }
}
