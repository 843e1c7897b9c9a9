/**
  The packet checksum. The reference is CRC-32 taken one bit at a time, low bit
  first, with the reflected polynomial 0xEDB88320 (section 8 of RFC 1952); the
  program looks whole bytes up in a table of 256 constants.
 */
module Crc32 {
  import opened Bits
  import opened Memory
  import opened Registers

  // ---------------------------------------------------------------- reference

  /** One shift of the reflected register. */
  function Step(c: nat): nat {
    if c % 2 == 1 then Xor(c / 2, 0xEDB88320) else c / 2
  }

  function FeedBit(c: nat, b: bool): nat {
    Step(Xor(c, if b then 1 else 0))
  }

  /** The register after feeding a bit string. */
  function Feed(c: nat, s: seq<bool>): nat
    decreases s
  {
    if s == [] then c else Feed(FeedBit(c, s[0]), s[1..])
  }

  /** CRC-32 of a block, continuing from an earlier checksum. */
  function Crc(m: seq<byte>, seed: nat): nat {
    Xor(Feed(Xor(seed, 0xFFFFFFFF), MemBits(m)), 0xFFFFFFFF)
  }

  lemma {:induction false} FeedConcat(c: nat, a: seq<bool>, b: seq<bool>)
    ensures Feed(c, a + b) == Feed(Feed(c, a), b)
    decreases a
  {
    hide FeedBit;
    if a == [] {
      assert a + b == b;
    } else {
      assert (a + b)[1..] == a[1..] + b;
      FeedConcat(FeedBit(c, a[0]), a[1..], b);
    }
  }

  /** Checksums chain across buffers. */
  lemma CrcChains(a: seq<byte>, b: seq<byte>, seed: nat)
    ensures Crc(a + b, seed) == Crc(b, Crc(a, seed))
  {
    hide Feed, MemBits, Xor;
    var c := Xor(seed, 0xFFFFFFFF);
    MemBitsConcat(a, b);
    FeedConcat(c, MemBits(a), MemBits(b));
    XorCancel(Feed(c, MemBits(a)), 0xFFFFFFFF);
  }

  lemma StepBound(c: nat)
    requires c < 0x1_0000_0000
    ensures Step(c) < 0x1_0000_0000
  {
    hide Xor, Pow2;
    Pow2Literals();
    XorBound(c / 2, 0xEDB88320, 32);
  }

  lemma FeedBitBound(c: nat, b: bool)
    requires c < 0x1_0000_0000
    ensures FeedBit(c, b) < 0x1_0000_0000
  {
    hide Xor, Pow2, Step;
    Pow2Literals();
    XorBound(c, if b then 1 else 0, 32);
    StepBound(Xor(c, if b then 1 else 0));
  }

  lemma {:induction false} FeedBound(c: nat, s: seq<bool>)
    requires c < 0x1_0000_0000
    ensures Feed(c, s) < 0x1_0000_0000
    decreases s
  {
    hide FeedBit;
    if s != [] {
      FeedBitBound(c, s[0]);
      FeedBound(FeedBit(c, s[0]), s[1..]);
    }
  }

  lemma CrcBound(m: seq<byte>, seed: u32)
    ensures Crc(m, seed) < 0x1_0000_0000
  {
    hide Feed, Xor, Pow2, MemBits;
    Pow2Literals();
    XorBound(seed, 0xFFFFFFFF, 32);
    FeedBound(Xor(seed, 0xFFFFFFFF), MemBits(m));
    XorBound(Feed(Xor(seed, 0xFFFFFFFF), MemBits(m)), 0xFFFFFFFF, 32);
  }

  // ---------------------------------------------------------------- the program

  /** The program's 256 table entries, sixteen to a row. */
  function TableRow(a: nat): (r: seq<bv32>)
    requires a < 16
    ensures |r| == 16
  {
    match a
    case 0 => [0x00000000, 0x77073096, 0xEE0E612C, 0x990951BA, 0x076DC419, 0x706AF48F, 0xE963A535, 0x9E6495A3,
      0x0EDB8832, 0x79DCB8A4, 0xE0D5E91E, 0x97D2D988, 0x09B64C2B, 0x7EB17CBD, 0xE7B82D07, 0x90BF1D91]
    case 1 => [0x1DB71064, 0x6AB020F2, 0xF3B97148, 0x84BE41DE, 0x1ADAD47D, 0x6DDDE4EB, 0xF4D4B551, 0x83D385C7,
      0x136C9856, 0x646BA8C0, 0xFD62F97A, 0x8A65C9EC, 0x14015C4F, 0x63066CD9, 0xFA0F3D63, 0x8D080DF5]
    case 2 => [0x3B6E20C8, 0x4C69105E, 0xD56041E4, 0xA2677172, 0x3C03E4D1, 0x4B04D447, 0xD20D85FD, 0xA50AB56B,
      0x35B5A8FA, 0x42B2986C, 0xDBBBC9D6, 0xACBCF940, 0x32D86CE3, 0x45DF5C75, 0xDCD60DCF, 0xABD13D59]
    case 3 => [0x26D930AC, 0x51DE003A, 0xC8D75180, 0xBFD06116, 0x21B4F4B5, 0x56B3C423, 0xCFBA9599, 0xB8BDA50F,
      0x2802B89E, 0x5F058808, 0xC60CD9B2, 0xB10BE924, 0x2F6F7C87, 0x58684C11, 0xC1611DAB, 0xB6662D3D]
    case 4 => [0x76DC4190, 0x01DB7106, 0x98D220BC, 0xEFD5102A, 0x71B18589, 0x06B6B51F, 0x9FBFE4A5, 0xE8B8D433,
      0x7807C9A2, 0x0F00F934, 0x9609A88E, 0xE10E9818, 0x7F6A0DBB, 0x086D3D2D, 0x91646C97, 0xE6635C01]
    case 5 => [0x6B6B51F4, 0x1C6C6162, 0x856530D8, 0xF262004E, 0x6C0695ED, 0x1B01A57B, 0x8208F4C1, 0xF50FC457,
      0x65B0D9C6, 0x12B7E950, 0x8BBEB8EA, 0xFCB9887C, 0x62DD1DDF, 0x15DA2D49, 0x8CD37CF3, 0xFBD44C65]
    case 6 => [0x4DB26158, 0x3AB551CE, 0xA3BC0074, 0xD4BB30E2, 0x4ADFA541, 0x3DD895D7, 0xA4D1C46D, 0xD3D6F4FB,
      0x4369E96A, 0x346ED9FC, 0xAD678846, 0xDA60B8D0, 0x44042D73, 0x33031DE5, 0xAA0A4C5F, 0xDD0D7CC9]
    case 7 => [0x5005713C, 0x270241AA, 0xBE0B1010, 0xC90C2086, 0x5768B525, 0x206F85B3, 0xB966D409, 0xCE61E49F,
      0x5EDEF90E, 0x29D9C998, 0xB0D09822, 0xC7D7A8B4, 0x59B33D17, 0x2EB40D81, 0xB7BD5C3B, 0xC0BA6CAD]
    case 8 => [0xEDB88320, 0x9ABFB3B6, 0x03B6E20C, 0x74B1D29A, 0xEAD54739, 0x9DD277AF, 0x04DB2615, 0x73DC1683,
      0xE3630B12, 0x94643B84, 0x0D6D6A3E, 0x7A6A5AA8, 0xE40ECF0B, 0x9309FF9D, 0x0A00AE27, 0x7D079EB1]
    case 9 => [0xF00F9344, 0x8708A3D2, 0x1E01F268, 0x6906C2FE, 0xF762575D, 0x806567CB, 0x196C3671, 0x6E6B06E7,
      0xFED41B76, 0x89D32BE0, 0x10DA7A5A, 0x67DD4ACC, 0xF9B9DF6F, 0x8EBEEFF9, 0x17B7BE43, 0x60B08ED5]
    case 10 => [0xD6D6A3E8, 0xA1D1937E, 0x38D8C2C4, 0x4FDFF252, 0xD1BB67F1, 0xA6BC5767, 0x3FB506DD, 0x48B2364B,
      0xD80D2BDA, 0xAF0A1B4C, 0x36034AF6, 0x41047A60, 0xDF60EFC3, 0xA867DF55, 0x316E8EEF, 0x4669BE79]
    case 11 => [0xCB61B38C, 0xBC66831A, 0x256FD2A0, 0x5268E236, 0xCC0C7795, 0xBB0B4703, 0x220216B9, 0x5505262F,
      0xC5BA3BBE, 0xB2BD0B28, 0x2BB45A92, 0x5CB36A04, 0xC2D7FFA7, 0xB5D0CF31, 0x2CD99E8B, 0x5BDEAE1D]
    case 12 => [0x9B64C2B0, 0xEC63F226, 0x756AA39C, 0x026D930A, 0x9C0906A9, 0xEB0E363F, 0x72076785, 0x05005713,
      0x95BF4A82, 0xE2B87A14, 0x7BB12BAE, 0x0CB61B38, 0x92D28E9B, 0xE5D5BE0D, 0x7CDCEFB7, 0x0BDBDF21]
    case 13 => [0x86D3D2D4, 0xF1D4E242, 0x68DDB3F8, 0x1FDA836E, 0x81BE16CD, 0xF6B9265B, 0x6FB077E1, 0x18B74777,
      0x88085AE6, 0xFF0F6A70, 0x66063BCA, 0x11010B5C, 0x8F659EFF, 0xF862AE69, 0x616BFFD3, 0x166CCF45]
    case 14 => [0xA00AE278, 0xD70DD2EE, 0x4E048354, 0x3903B3C2, 0xA7672661, 0xD06016F7, 0x4969474D, 0x3E6E77DB,
      0xAED16A4A, 0xD9D65ADC, 0x40DF0B66, 0x37D83BF0, 0xA9BCAE53, 0xDEBB9EC5, 0x47B2CF7F, 0x30B5FFE9]
    case _ => [0xBDBDF21C, 0xCABAC28A, 0x53B39330, 0x24B4A3A6, 0xBAD03605, 0xCDD70693, 0x54DE5729, 0x23D967BF,
      0xB3667A2E, 0xC4614AB8, 0x5D681B02, 0x2A6F2B94, 0xB40BBE37, 0xC30C8EA1, 0x5A05DF1B, 0x2D02EF8D]
  }

  function Table(i: nat): bv32
    requires i < 256
  {
    TableRow(i / 16)[i % 16]
  }

  /** `calculate_crc32`: one table lookup a byte, equal to the bitwise checksum. */
  method CalculateCrc32(buffer: seq<byte>, seed: bv32) returns (crc32: bv32)
    ensures Num(crc32) == Crc(buffer, Num(seed))
  {
    hide MemBits, Feed, Table, Num, Xor;
    NumXor(seed, 0xFFFFFFFF);
    NumOnes();
    crc32 := seed ^ 0xFFFFFFFF;
    ghost var start := Num(crc32);
    FeedNothing(start, buffer);
    for i := 0 to |buffer|
      invariant Num(crc32) == Feed(start, MemBits(buffer[..i]))
    {
      FeedSnoc(start, buffer, i);
      crc32 := UpdateByte(crc32, buffer[i]);
    }
    assert buffer[..|buffer|] == buffer;
    NumXor(crc32, 0xFFFFFFFF);
    crc32 := crc32 ^ 0xFFFFFFFF;
  }

  /** The body of the checksum loop. */
  method UpdateByte(c: bv32, b: byte) returns (r: bv32)
    ensures Num(r) == Feed(Num(c), BitsOf(b, 8))
  {
    hide Feed, Table, Num, BitsOf;
    LookupIsFeed(c, b, (c ^ (b as bv32)) & 0xFF);
    r := (c >> 8) ^ Table(((c ^ (b as bv32)) & 0xFF) as int);
  }

  lemma FeedNothing(c: nat, m: seq<byte>)
    ensures Feed(c, MemBits(m[..0])) == c
  {
  }

  lemma FeedSnoc(c: nat, m: seq<byte>, i: nat)
    requires i < |m|
    ensures Feed(c, MemBits(m[..i + 1])) == Feed(Feed(c, MemBits(m[..i])), BitsOf(m[i], 8))
  {
    hide Feed, MemBits, BitsOf;
    MemBitsSnoc(m, i);
    FeedConcat(c, MemBits(m[..i]), BitsOf(m[i], 8));
  }

  // ---------------------------------------------------------------- linearity

  /** Shifting is linear over exclusive or. */
  lemma StepLinear(a: nat, b: nat)
    ensures Step(Xor(a, b)) == Xor(Step(a), Step(b))
  {
    hide Xor;
    var p, x, y := 0xEDB88320, a / 2, b / 2;
    XorParts(a, b);
    if a % 2 == 1 && b % 2 == 1 {
      XorSwap(x, y, p, p);
      XorSelf(p);
      XorZero(Xor(x, y));
    } else if a % 2 == 1 {
      XorAssoc(x, p, y);
      XorComm(p, y);
      XorAssoc(x, y, p);
    } else if b % 2 == 1 {
      XorAssoc(x, y, p);
    }
  }

  function StepN(c: nat, n: nat): nat
    decreases n
  {
    if n == 0 then c else StepN(Step(c), n - 1)
  }

  lemma {:induction false} StepNLinear(a: nat, b: nat, n: nat)
    ensures StepN(Xor(a, b), n) == Xor(StepN(a, n), StepN(b, n))
    decreases n
  {
    if n > 0 {
      hide Step, Xor;
      StepLinear(a, b);
      StepNLinear(Step(a), Step(b), n - 1);
    }
  }

  /** Bits above the ones fed are only shifted. */
  lemma {:induction false} StepNHigh(y: nat, n: nat)
    ensures StepN(Shl(y, n), n) == y
  {
    if n > 0 {
      assert Step(Shl(y, n)) == Shl(y, n - 1);
      StepNHigh(y, n - 1);
    }
  }

  lemma {:induction false} XorDisjoint(x: nat, y: nat, n: nat)
    requires x < Pow2(n)
    ensures Xor(x, Shl(y, n)) == x + Shl(y, n)
    decreases n
  {
    hide Xor;
    if n == 0 {
      XorZero(y);
    } else {
      XorParts(x, Shl(y, n));
      XorDisjoint(x / 2, y, n - 1);
    }
  }

  /** Bits not yet fed may be xor-ed in early. */
  lemma EarlyXor(c: nat, b: nat)
    ensures Xor(Step(Xor(c, b % 2)), b / 2) == Step(Xor(c, b))
  {
    hide Xor;
    var h := 2 * (b / 2);
    assert Xor(b % 2, h) == b by { EvenXor(b % 2, b / 2); }
    XorAssoc(c, b % 2, h);
    StepLinear(Xor(c, b % 2), h);
  }

  lemma EvenXor(p: nat, q: nat)
    requires p <= 1
    ensures Xor(p, 2 * q) == p + 2 * q
  {
    assert Shl(q, 1) == 2 * q;
    XorDisjoint(p, q, 1);
  }

  lemma {:induction false} FeedBits(c: nat, b: nat, n: nat)
    requires b < Pow2(n)
    ensures Feed(c, BitsOf(b, n)) == StepN(Xor(c, b), n)
    decreases n
  {
    hide Step, Xor;
    if n == 0 {
      XorZero(c);
    } else {
      EarlyXor(c, b);
      assert BitsOf(b, n)[1..] == BitsOf(b / 2, n - 1);
      FeedBits(FeedBit(c, b % 2 == 1), b / 2, n - 1);
    }
  }

  // ---------------------------------------------------------------- the table is the bitwise step

  /** One shift of a machine register. */
  function RegStep(c: bv32): bv32 {
    if c & 1 == 1 then (c >> 1) ^ 0xEDB88320 else c >> 1
  }

  function RegStep8(c: bv32): bv32 {
    RegStep(RegStep(RegStep(RegStep(RegStep(RegStep(RegStep(RegStep(c))))))))
  }

  lemma NumBytes(x: bv32, lo: byte, hi: bv32)
    requires hi == x >> 8 && x & 0xFF == lo as bv32
    ensures Num(x) == lo + 0x100 * Num(hi)
  {
    hide Num;
    NumShift8(x);
    NumLowByte(x);
    NumByte(lo);
  }

  lemma NumPoly()
    ensures Num(0xEDB88320) == 0xEDB88320
  {
    hide Num;
    NumBytes(0xEDB88320, 0x20, 0xEDB883);
    NumBytes(0xEDB883, 0x83, 0xEDB8);
    NumBytes(0xEDB8, 0xB8, 0xED);
    NumBytes(0xED, 0xED, 0);
    NumZero();
  }

  lemma NumOnes()
    ensures Num(0xFFFFFFFF) == 0xFFFFFFFF
  {
    hide Num;
    NumBytes(0xFFFFFFFF, 0xFF, 0xFFFFFF);
    NumBytes(0xFFFFFF, 0xFF, 0xFFFF);
    NumBytes(0xFFFF, 0xFF, 0xFF);
    NumBytes(0xFF, 0xFF, 0);
    NumZero();
  }

  lemma NumStep(c: bv32)
    ensures Num(RegStep(c)) == Step(Num(c))
  {
    hide Num, Xor;
    NumParts(c);
    NumPoly();
    NumXor(c >> 1, 0xEDB88320);
  }

  lemma NumStep8(c: bv32)
    ensures Num(RegStep8(c)) == StepN(Num(c), 8)
  {
    hide Num, Step, RegStep;
    var c1 := RegStep(c);
    var c2 := RegStep(c1);
    var c3 := RegStep(c2);
    var c4 := RegStep(c3);
    NumStep(c);
    NumStep(c1);
    NumStep(c2);
    NumStep(c3);
    assert StepN(Num(c), 8) == StepN(Num(c4), 4);
    NumStep4(c4);
  }

  lemma NumStep4(c: bv32)
    ensures Num(RegStep(RegStep(RegStep(RegStep(c))))) == StepN(Num(c), 4)
  {
    hide Num, Step, RegStep;
    NumStep(c);
    NumStep(RegStep(c));
    NumStep(RegStep(RegStep(c)));
    NumStep(RegStep(RegStep(RegStep(c))));
  }

  ghost predicate IsXor(x: bv32, y: bv32, z: bv32) {
    z == x ^ y
  }

  ghost predicate RowXor(r: seq<bv32>, z: seq<bv32>)
    requires |r| == |z| == 16
  {
    && IsXor(r[0], z[1], r[1]) && IsXor(r[0], z[2], r[2]) && IsXor(r[0], z[3], r[3]) && IsXor(r[0], z[4], r[4])
    && IsXor(r[0], z[5], r[5]) && IsXor(r[0], z[6], r[6]) && IsXor(r[0], z[7], r[7]) && IsXor(r[0], z[8], r[8])
    && IsXor(r[0], z[9], r[9]) && IsXor(r[0], z[10], r[10]) && IsXor(r[0], z[11], r[11]) && IsXor(r[0], z[12], r[12])
    && IsXor(r[0], z[13], r[13]) && IsXor(r[0], z[14], r[14]) && IsXor(r[0], z[15], r[15])
  }

  lemma RowPick(r: seq<bv32>, z: seq<bv32>, b: nat)
    requires |r| == |z| == 16 && RowXor(r, z) && 0 < b < 16
    ensures IsXor(r[0], z[b], r[b])
  {
    hide IsXor;
    match b
    case 1 => case 2 => case 3 => case 4 => case 5 => case 6 => case 7 => case 8 =>
    case 9 => case 10 => case 11 => case 12 => case 13 => case 14 => case _ =>
  }

  /** Row a of the table is row 0 xor the row's first entry. */
  ghost predicate RowLinear(a: nat)
    requires a < 16
  {
    RowXor(TableRow(a), TableRow(0))
  }

  lemma RowsLinear1()
    ensures RowLinear(1) && RowLinear(2) && RowLinear(3)
  {
  }

  lemma RowsLinear4()
    ensures RowLinear(4) && RowLinear(5) && RowLinear(6)
  {
  }

  lemma RowsLinear7()
    ensures RowLinear(7) && RowLinear(8) && RowLinear(9)
  {
  }

  lemma RowsLinear10()
    ensures RowLinear(10) && RowLinear(11) && RowLinear(12)
  {
  }

  lemma RowsLinear13()
    ensures RowLinear(13) && RowLinear(14) && RowLinear(15)
  {
  }

  lemma RowsLinear(a: nat)
    requires 0 < a < 16
    ensures RowLinear(a)
  {
    hide RowLinear;
    if a < 4 {
      RowsLinear1();
    } else if a < 7 {
      RowsLinear4();
    } else if a < 10 {
      RowsLinear7();
    } else if a < 13 {
      RowsLinear10();
    } else {
      RowsLinear13();
    }
  }

  ghost predicate HeadOk(a: nat)
    requires a < 16
  {
    Num(TableRow(a)[0]) == StepN(16 * a, 8)
  }

  ghost predicate ZeroOk(b: nat)
    requires b < 16
  {
    Num(TableRow(0)[b]) == StepN(b, 8)
  }

  lemma Entry(r: bv32, i: byte, c: bv32)
    requires c == i as bv32 && r == RegStep8(c)
    ensures Num(r) == StepN(i, 8)
  {
    hide Num, RegStep8, StepN;
    NumByte(i);
    NumStep8(c);
  }

  lemma Heads0()
    ensures HeadOk(0) && HeadOk(1)
  {
    hide Num, StepN;
    Entry(TableRow(0)[0], 0, 0);
    Entry(TableRow(1)[0], 16, 16);
  }

  lemma Heads2()
    ensures HeadOk(2) && HeadOk(3)
  {
    hide Num, StepN;
    Entry(TableRow(2)[0], 32, 32);
    Entry(TableRow(3)[0], 48, 48);
  }

  lemma Heads4()
    ensures HeadOk(4) && HeadOk(5)
  {
    hide Num, StepN;
    Entry(TableRow(4)[0], 64, 64);
    Entry(TableRow(5)[0], 80, 80);
  }

  lemma Heads6()
    ensures HeadOk(6) && HeadOk(7)
  {
    hide Num, StepN;
    Entry(TableRow(6)[0], 96, 96);
    Entry(TableRow(7)[0], 112, 112);
  }

  lemma Heads8()
    ensures HeadOk(8) && HeadOk(9)
  {
    hide Num, StepN;
    Entry(TableRow(8)[0], 128, 128);
    Entry(TableRow(9)[0], 144, 144);
  }

  lemma Heads10()
    ensures HeadOk(10) && HeadOk(11)
  {
    hide Num, StepN;
    Entry(TableRow(10)[0], 160, 160);
    Entry(TableRow(11)[0], 176, 176);
  }

  lemma Heads12()
    ensures HeadOk(12) && HeadOk(13)
  {
    hide Num, StepN;
    Entry(TableRow(12)[0], 192, 192);
    Entry(TableRow(13)[0], 208, 208);
  }

  lemma Heads14()
    ensures HeadOk(14) && HeadOk(15)
  {
    hide Num, StepN;
    Entry(TableRow(14)[0], 224, 224);
    Entry(TableRow(15)[0], 240, 240);
  }

  lemma Zeros0()
    ensures ZeroOk(0) && ZeroOk(1)
  {
    hide Num, StepN;
    Entry(TableRow(0)[0], 0, 0);
    Entry(TableRow(0)[1], 1, 1);
  }

  lemma Zeros2()
    ensures ZeroOk(2) && ZeroOk(3)
  {
    hide Num, StepN;
    Entry(TableRow(0)[2], 2, 2);
    Entry(TableRow(0)[3], 3, 3);
  }

  lemma Zeros4()
    ensures ZeroOk(4) && ZeroOk(5)
  {
    hide Num, StepN;
    Entry(TableRow(0)[4], 4, 4);
    Entry(TableRow(0)[5], 5, 5);
  }

  lemma Zeros6()
    ensures ZeroOk(6) && ZeroOk(7)
  {
    hide Num, StepN;
    Entry(TableRow(0)[6], 6, 6);
    Entry(TableRow(0)[7], 7, 7);
  }

  lemma Zeros8()
    ensures ZeroOk(8) && ZeroOk(9)
  {
    hide Num, StepN;
    Entry(TableRow(0)[8], 8, 8);
    Entry(TableRow(0)[9], 9, 9);
  }

  lemma Zeros10()
    ensures ZeroOk(10) && ZeroOk(11)
  {
    hide Num, StepN;
    Entry(TableRow(0)[10], 10, 10);
    Entry(TableRow(0)[11], 11, 11);
  }

  lemma Zeros12()
    ensures ZeroOk(12) && ZeroOk(13)
  {
    hide Num, StepN;
    Entry(TableRow(0)[12], 12, 12);
    Entry(TableRow(0)[13], 13, 13);
  }

  lemma Zeros14()
    ensures ZeroOk(14) && ZeroOk(15)
  {
    hide Num, StepN;
    Entry(TableRow(0)[14], 14, 14);
    Entry(TableRow(0)[15], 15, 15);
  }

  lemma Head(a: nat)
    requires a < 16
    ensures HeadOk(a)
  {
    hide HeadOk;
    Heads0();
    Heads2();
    Heads4();
    Heads6();
    Heads8();
    Heads10();
    Heads12();
    Heads14();
  }

  lemma ZeroEntry(b: nat)
    requires b < 16
    ensures ZeroOk(b)
  {
    hide ZeroOk;
    Zeros0();
    Zeros2();
    Zeros4();
    Zeros6();
    Zeros8();
    Zeros10();
    Zeros12();
    Zeros14();
  }

  lemma RowEntry(a: nat, b: nat)
    requires 0 < a < 16 && 0 < b < 16
    ensures TableRow(a)[b] == TableRow(a)[0] ^ TableRow(0)[b]
  {
    hide TableRow, RowXor;
    RowsLinear(a);
    RowPick(TableRow(a), TableRow(0), b);
  }

  /** Every table entry is eight bitwise steps of its index. */
  lemma TableIsStep8(i: nat)
    requires i < 256
    ensures Num(Table(i)) == StepN(i, 8)
  {
    hide TableRow, StepN, Num, Xor;
    var a, b := i / 16, i % 16;
    ZeroEntry(b);
    if a > 0 {
      Head(a);
    }
    if a > 0 && b > 0 {
      RowEntry(a, b);
      NumXor(TableRow(a)[0], TableRow(0)[b]);
      StepNLinear(16 * a, b, 8);
      NibbleXor(a, b);
    }
  }

  lemma NibbleXor(a: nat, b: nat)
    requires b < 16
    ensures Xor(16 * a, b) == 16 * a + b
  {
    assert Shl(a, 4) == 16 * a;
    assert Pow2(4) == 16;
    XorDisjoint(b, a, 4);
    XorComm(16 * a, b);
  }

  /** Eight steps split into a lookup of the low byte and a shift of the rest. */
  lemma SplitStep8(x: nat)
    ensures StepN(x, 8) == Xor(x / 0x100, StepN(x % 0x100, 8))
  {
    hide StepN, Xor, Shl;
    var lo, hi := x % 0x100, x / 0x100;
    ShlByte(hi);
    Pow2Small();
    XorDisjoint(lo, hi, 8);
    StepNLinear(lo, Shl(hi, 8), 8);
    StepNHigh(hi, 8);
    XorComm(StepN(lo, 8), hi);
  }

  lemma {:induction false} XorHigh(x: nat, b: nat, n: nat)
    requires b < Pow2(n)
    ensures Shr(Xor(x, b), n) == Shr(x, n)
    decreases n
  {
    if n == 0 {
      XorZero(x);
    } else {
      XorParts(x, b);
      XorHigh(x / 2, b / 2, n - 1);
    }
  }

  lemma ShrByte(x: nat)
    ensures Shr(x, 8) == x / 0x100
  {
    assert Shr(x, 8) == Shr(x / 2 / 2 / 2 / 2, 4);
  }

  lemma XorHighByte(x: nat, b: byte)
    ensures Xor(x, b) / 0x100 == x / 0x100
  {
    hide Shr, Xor;
    Pow2Small();
    XorHigh(x, b, 8);
    ShrByte(x);
    ShrByte(Xor(x, b));
  }

  /** One lookup, as numbers. */
  lemma LookupNumber(c: nat, b: byte)
    ensures Xor(c / 0x100, StepN(Xor(c, b) % 0x100, 8)) == Feed(c, BitsOf(b, 8))
  {
    hide Xor, Feed, BitsOf, StepN;
    SplitStep8(Xor(c, b));
    XorHighByte(c, b);
    Pow2Small();
    FeedBits(c, b, 8);
  }

  lemma LookupIndex(c: bv32, b: byte, r: bv32, y: bv32)
    requires r == b as bv32 && y == (c ^ r) & 0xFF
    ensures 0 <= y as int < 256 && y as int == Xor(Num(c), b) % 0x100
  {
    hide Num, Xor;
    NumByte(b);
    NumXor(c, r);
    LowByteIndex(c ^ r, y);
  }

  lemma LookupValue(c: bv32, i: nat, h: bv32, t: bv32, r: bv32)
    requires i < 256 && h == c >> 8 && t == Table(i) && r == h ^ t
    ensures Num(r) == Xor(Num(c) / 0x100, StepN(i, 8))
  {
    hide Num, Xor, Table, StepN;
    TableIsStep8(i);
    NumShift8(c);
    NumXor(h, t);
  }

  /** One iteration of the table-driven loop is eight iterations of the bitwise one. */
  lemma LookupIsFeed(c: bv32, b: byte, y: bv32)
    requires y == (c ^ (b as bv32)) & 0xFF
    ensures 0 <= y as int < 256
    ensures Num((c >> 8) ^ Table(y as int)) == Feed(Num(c), BitsOf(b, 8))
  {
    hide Table, Num, Xor, Feed, BitsOf, StepN;
    LookupIndex(c, b, b as bv32, y);
    LookupValue(c, y as int, c >> 8, Table(y as int), (c >> 8) ^ Table(y as int));
    LookupNumber(Num(c), b);
  }

  // ---------------------------------------------------------------- detection

  /** How two registers differ after one more bit each. */
  lemma DifferenceStep(c: nat, d: nat, x: bool, y: bool)
    ensures Xor(FeedBit(c, x), FeedBit(d, y)) == Step(Xor(Xor(c, d), if x == y then 0 else 1))
  {
    hide Xor, Step;
    var e, f := if x then 1 else 0, if y then 1 else 0;
    StepLinear(Xor(c, e), Xor(d, f));
    XorSwap(c, d, e, f);
    XorBit(e, f);
  }

  lemma XorBit(e: nat, f: nat)
    requires e <= 1 && f <= 1
    ensures Xor(e, f) == if e == f then 0 else 1
  {
  }

  /** An odd register comes out of a step with its top bit set. */
  lemma OddSetsTop(c: nat)
    requires c % 2 == 1 && c < 0x1_0000_0000
    ensures Step(c) >= 0x8000_0000
  {
    hide Xor;
    var x, p := c / 2, 0x6DB88320;
    assert Xor(x, 0xEDB88320) == Xor(Xor(x, p), 0x8000_0000) by {
      assert Xor(p, 0x8000_0000) == 0xEDB88320 by { TopBit(p); }
      XorAssoc(x, p, 0x8000_0000);
    }
    HalfWord();
    XorBound(x, p, 31);
    TopBit(Xor(x, p));
  }

  lemma TopBit(x: nat)
    requires x < 0x8000_0000
    ensures Xor(x, 0x8000_0000) == x + 0x8000_0000
  {
    hide Xor, Shl, Pow2;
    HalfWord();
    Pow2Shl(0, 31);
    assert Pow2(0) == 1 by { PowZero(); }
    XorDisjoint(x, 1, 31);
  }

  lemma PowZero()
    ensures Pow2(0) == 1
  {
  }

  /** A difference that reaches bit m still reaches bit m - 1 one step later. */
  lemma DifferenceSurvives(d: nat, e: nat, m: nat)
    requires Pow2(m) <= d < 0x1_0000_0000 && 0 < m && e <= 1
    ensures Step(Xor(d, e)) >= Pow2(m - 1)
  {
    hide Xor;
    XorParts(d, e);
    XorZero(d / 2);
    if Xor(d, e) % 2 == 1 {
      SmallExponent(d, m);
      XorWord(d, e);
      OddSetsTop(Xor(d, e));
    }
  }

  lemma SmallExponent(d: nat, m: nat)
    requires Pow2(m) <= d < 0x1_0000_0000 && 0 < m
    ensures Pow2(m - 1) <= 0x8000_0000
  {
    hide Pow2;
    Pow2Literals();
    HalfWord();
    if m > 31 {
      Pow2Monotone(32, if m >= 32 then m else 32);
    } else {
      Pow2Monotone(m - 1, 31);
    }
  }

  lemma XorDiffers(c: nat, d: nat)
    ensures c != d <==> Xor(c, d) != 0
  {
    hide Xor;
    if c == d {
      XorSelf(c);
    } else if Xor(c, d) == 0 {
      XorZeroOnly(c, d);
    }
  }

  /** A difference high in the register outlives any input shorter than its position. */
  lemma {:induction false} DifferencePersists(c: nat, d: nat, a: seq<bool>, b: seq<bool>, m: nat)
    requires c < 0x1_0000_0000 && d < 0x1_0000_0000
    requires |a| == |b| <= m && Pow2(m) <= Xor(c, d)
    ensures Feed(c, a) != Feed(d, b)
    decreases a
  {
    hide Xor, FeedBit, Step;
    if a == [] {
      XorDiffers(c, d);
    } else {
      var e := if a[0] == b[0] then 0 else 1;
      DifferenceStep(c, d, a[0], b[0]);
      XorWord(c, d);
      DifferenceSurvives(Xor(c, d), e, m);
      FeedBitBound(c, a[0]);
      FeedBitBound(d, b[0]);
      DifferencePersists(FeedBit(c, a[0]), FeedBit(d, b[0]), a[1..], b[1..], m - 1);
    }
  }

  lemma XorWord(c: nat, d: nat)
    requires c < 0x1_0000_0000 && d < 0x1_0000_0000
    ensures Xor(c, d) < 0x1_0000_0000
  {
    hide Xor, Pow2;
    Pow2Literals();
    XorBound(c, d, 32);
  }

  /** Inputs of at most 32 bits enter the register injectively. */
  lemma {:induction false} ShortInjective(c: nat, a: seq<bool>, b: seq<bool>)
    requires c < 0x1_0000_0000
    requires |a| == |b| <= 32 && a != b
    ensures Feed(c, a) != Feed(c, b)
    decreases a
  {
    hide FeedBit, Step, Xor;
    if a[0] == b[0] {
      FeedBitBound(c, a[0]);
      assert a == [a[0]] + a[1..] && b == [b[0]] + b[1..];
      ShortInjective(FeedBit(c, a[0]), a[1..], b[1..]);
    } else {
      FirstDifference(c, a[0], b[0]);
      FeedBitBound(c, a[0]);
      FeedBitBound(c, b[0]);
      DifferencePersists(FeedBit(c, a[0]), FeedBit(c, b[0]), a[1..], b[1..], 31);
    }
  }

  lemma FirstDifference(c: nat, x: bool, y: bool)
    requires x != y
    ensures Xor(FeedBit(c, x), FeedBit(c, y)) >= Pow2(31)
  {
    hide Xor, FeedBit, Pow2;
    DifferenceStep(c, c, x, y);
    XorSelf(c);
    XorZero(1);
    OddSetsTop(1);
    HalfWord();
  }

  lemma HalfWord()
    ensures Pow2(31) == 0x8000_0000
  {
    Pow2Literals();
    assert Pow2(32) == 2 * Pow2(31);
  }

  /** A register difference never vanishes under equal input. */
  lemma {:induction false} FeedInjective(c: nat, d: nat, s: seq<bool>)
    requires c < 0x1_0000_0000 && d < 0x1_0000_0000 && c != d
    ensures Feed(c, s) != Feed(d, s)
    decreases s
  {
    hide FeedBit, Xor, Step;
    if s != [] {
      FeedBitBound(c, s[0]);
      FeedBitBound(d, s[0]);
      FeedBitInjective(c, d, s[0]);
      FeedInjective(FeedBit(c, s[0]), FeedBit(d, s[0]), s[1..]);
    }
  }

  lemma FeedBitInjective(c: nat, d: nat, x: bool)
    requires c < 0x1_0000_0000 && d < 0x1_0000_0000 && c != d
    ensures FeedBit(c, x) != FeedBit(d, x)
  {
    hide Xor, FeedBit;
    var e := Xor(c, d);
    XorDiffers(c, d);
    XorWord(c, d);
    XorZero(e);
    DifferenceStep(c, d, x, x);
    if e % 2 == 1 {
      OddSetsTop(e);
    }
    XorDiffers(FeedBit(c, x), FeedBit(d, x));
  }

  /** Changing bits only inside a window of 32 changes the register for good. */
  lemma BurstDetected(c: nat, p: seq<bool>, a: seq<bool>, b: seq<bool>, q: seq<bool>)
    requires c < 0x1_0000_0000
    requires |a| == |b| <= 32 && a != b
    ensures Feed(c, p + a + q) != Feed(c, p + b + q)
  {
    hide Feed;
    FeedConcat(c, p + a, q);
    FeedConcat(c, p + b, q);
    FeedConcat(c, p, a);
    FeedConcat(c, p, b);
    FeedBound(c, p);
    ShortInjective(Feed(c, p), a, b);
    FeedBound(Feed(c, p), a);
    FeedBound(Feed(c, p), b);
    FeedInjective(Feed(Feed(c, p), a), Feed(Feed(c, p), b), q);
  }

  // ---------------------------------------------------------------- the check value

  /** One byte of a computation whose registers are all known. */
  lemma CheckStep(start: nat, m: seq<byte>, k: nat, c: bv32, b: byte, x: bv32, y: bv32, i: nat, t: bv32, r: bv32)
    requires k < |m| && m[k] == b && Num(c) == Feed(start, MemBits(m[..k]))
    requires x == b as bv32 && y == (c ^ x) & 0xFF && i == y as int && i < 256 && t == Table(i)
    requires r == (c >> 8) ^ t
    ensures Num(r) == Feed(start, MemBits(m[..k + 1]))
  {
    hide Num, Feed, MemBits, BitsOf, Table, Xor, StepN;
    LookupIndex(c, b, x, y);
    LookupValue(c, i, c >> 8, t, r);
    LookupNumber(Num(c), b);
    FeedSnoc(start, m, k);
  }

  lemma FirstDigits(start: nat, m: seq<byte>)
    requires |m| == 9 && m[0] == 0x31 && m[1] == 0x32 && m[2] == 0x33
    requires Num(0xFFFFFFFF) == Feed(start, MemBits(m[..0]))
    ensures Num(0x77B79C2D) == Feed(start, MemBits(m[..3]))
  {
    hide Num, Feed, MemBits;
    CheckStep(start, m, 0, 0xFFFFFFFF, 0x31, 0x31, 206, 206, 0x7CDCEFB7, 0x7C231048);
    CheckStep(start, m, 1, 0x7C231048, 0x32, 0x32, 122, 122, 0xB0D09822, 0xB0ACBB32);
    CheckStep(start, m, 2, 0xB0ACBB32, 0x33, 0x33, 1, 1, 0x77073096, 0x77B79C2D);
  }

  lemma MiddleDigits(start: nat, m: seq<byte>)
    requires |m| == 9 && m[3] == 0x34 && m[4] == 0x35 && m[5] == 0x36
    requires Num(0x77B79C2D) == Feed(start, MemBits(m[..3]))
    ensures Num(0xF68D2C9E) == Feed(start, MemBits(m[..6]))
  {
    hide Num, Feed, MemBits;
    CheckStep(start, m, 3, 0x77B79C2D, 0x34, 0x34, 25, 25, 0x646BA8C0, 0x641C1F5C);
    CheckStep(start, m, 4, 0x641C1F5C, 0x35, 0x35, 105, 105, 0x346ED9FC, 0x340AC5E3);
    CheckStep(start, m, 5, 0x340AC5E3, 0x36, 0x36, 213, 213, 0xF6B9265B, 0xF68D2C9E);
  }

  lemma LastDigits(start: nat, m: seq<byte>)
    requires |m| == 9 && m[6] == 0x37 && m[7] == 0x38 && m[8] == 0x39
    requires Num(0xF68D2C9E) == Feed(start, MemBits(m[..6]))
    ensures Num(0x340BC6D9) == Feed(start, MemBits(m[..9]))
  {
    hide Num, Feed, MemBits;
    CheckStep(start, m, 6, 0xF68D2C9E, 0x37, 0x37, 169, 169, 0xAF0A1B4C, 0xAFFC9660);
    CheckStep(start, m, 7, 0xAFFC9660, 0x38, 0x38, 88, 88, 0x65B0D9C6, 0x651F2550);
    CheckStep(start, m, 8, 0x651F2550, 0x39, 0x39, 105, 105, 0x346ED9FC, 0x340BC6D9);
  }

  /** The checksum of the nine digits "123456789" is 0xCBF43926, the check value by which CRC-32 is known. */
  lemma CheckValue()
    ensures Crc([0x31, 0x32, 0x33, 0x34, 0x35, 0x36, 0x37, 0x38, 0x39], 0) == 0xCBF43926
  {
    hide Num, Feed, MemBits, Xor;
    var m: seq<byte> := [0x31, 0x32, 0x33, 0x34, 0x35, 0x36, 0x37, 0x38, 0x39];
    var start := 0xFFFFFFFF;
    NumOnes();
    XorComm(0, start);
    XorZero(start);
    FeedNothing(start, m);
    FirstDigits(start, m);
    MiddleDigits(start, m);
    LastDigits(start, m);
    assert m[..9] == m;
    NumXor(0x340BC6D9, 0xFFFFFFFF);
    NumCheck();
  }

  lemma NumCheck()
    ensures Num(0xCBF43926) == 0xCBF43926
  {
    hide Num;
    NumBytes(0xCBF43926, 0x26, 0xCBF439);
    NumBytes(0xCBF439, 0x39, 0xCBF4);
    NumBytes(0xCBF4, 0xF4, 0xCB);
    NumBytes(0xCB, 0xCB, 0);
    NumZero();
  }
}
