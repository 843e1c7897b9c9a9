/** The client's conversions between byte arrays and arrays of 32-bit words. */
module WordArrays {
  import opened Bits
  import opened Memory
  import opened ScratchRegister

  /** The block copy out of a word array: the words' bytes, low byte first. */
  function UIntArrayToByteArray(ws: seq<u32>): (m: seq<byte>)
    ensures |m| == 4 * |ws|
  {
    if ws == [] then [] else LeBytes(ws[0], 4) + UIntArrayToByteArray(ws[1..])
  }

  lemma {:induction false} UIntArrayConcat(a: seq<u32>, b: seq<u32>)
    ensures UIntArrayToByteArray(a + b) == UIntArrayToByteArray(a) + UIntArrayToByteArray(b)
  {
    hide LeBytes;
    if a == [] {
      assert a + b == b;
    } else {
      assert (a + b)[1..] == a[1..] + b;
      UIntArrayConcat(a[1..], b);
    }
  }

  lemma UIntArraySplit(ws: seq<u32>, i: nat)
    requires i <= |ws|
    ensures UIntArrayToByteArray(ws[..i]) == UIntArrayToByteArray(ws)[..4 * i]
    ensures UIntArrayToByteArray(ws[i..]) == UIntArrayToByteArray(ws)[4 * i..]
  {
    hide UIntArrayToByteArray;
    assert ws == ws[..i] + ws[i..];
    UIntArrayConcat(ws[..i], ws[i..]);
  }

  lemma UIntArraySingle(w: u32)
    ensures UIntArrayToByteArray([w]) == LeBytes(w, 4)
  {
    assert UIntArrayToByteArray([]) == [];
  }

  /** Replacing words from index i on replaces their bytes. */
  lemma WordsReplaced(ws: seq<u32>, i: nat, vs: seq<u32>, j: nat)
    requires j == i + |vs| <= |ws|
    ensures UIntArrayToByteArray(ws[..i] + vs + ws[j..])
            == Splice(UIntArrayToByteArray(ws), 4 * i, UIntArrayToByteArray(vs))
  {
    hide UIntArrayToByteArray;
    UIntArrayConcat(ws[..i] + vs, ws[j..]);
    UIntArrayConcat(ws[..i], vs);
    UIntArraySplit(ws, i);
    UIntArraySplit(ws, j);
    SpliceIs(UIntArrayToByteArray(ws), 4 * i, UIntArrayToByteArray(vs), 4 * j);
  }

  lemma SpliceIs(m: seq<byte>, start: nat, block: seq<byte>, end: nat)
    requires end == start + |block| <= |m|
    ensures Splice(m, start, block) == m[..start] + block + m[end..]
  {
  }

  lemma WordReplaced(ws: seq<u32>, i: nat, w: u32)
    requires i < |ws|
    ensures UIntArrayToByteArray(ws[i := w]) == WithWord(UIntArrayToByteArray(ws), i, w)
  {
    hide UIntArrayToByteArray, LeBytes;
    assert ws[i := w] == ws[..i] + [w] + ws[i + 1..];
    WordsReplaced(ws, i, [w], i + 1);
    UIntArraySingle(w);
  }

  /** `ByteArrayToUIntArray`: each word is read little-endian. */
  method ByteArrayToUIntArray(data: seq<byte>) returns (ret: array<u32>)
    requires |data| % 4 == 0
    ensures fresh(ret) && ret.Length == |data| / 4 && UIntArrayToByteArray(ret[..]) == data
  {
    hide UIntArrayToByteArray, LeNum, LeBytes;
    var len := |data| / 4;
    ret := new u32[len](_ => 0);
    NoWords();
    for i := 0 to len
      invariant UIntArrayToByteArray(ret[..i]) == data[..4 * i]
    {
      var word := data[4 * i..4 * i + 4];
      WordFits(word);
      ret[i] := LeNum(word);
      assert ret[..i + 1] == ret[..i] + [LeNum(word)];
      UIntArrayConcat(ret[..i], [LeNum(word)]);
      UIntArraySingle(LeNum(word));
      assert data[..4 * i] + word == data[..4 * (i + 1)];
    }
    assert ret[..len] == ret[..] && data[..4 * len] == data;
  }

  lemma NoWords()
    ensures UIntArrayToByteArray([]) == []
  {
  }

  lemma WordFits(m: seq<byte>)
    requires |m| == 4
    ensures LeNum(m) < 0x1_0000_0000 && LeBytes(LeNum(m), 4) == m
  {
    hide LeNum, LeBytes, MemBits, ValueOf;
    LeNumValue(m);
    FitsWord(MemBits(m));
    LeBytesOfNum(m);
  }

  lemma WordAt(ws: seq<u32>, i: nat)
    requires i < |ws|
    ensures LeNum(UIntArrayToByteArray(ws)[4 * i..4 * i + 4]) == ws[i]
  {
    hide UIntArrayToByteArray, LeBytes, LeNum, Pow2;
    assert ws == ws[..i] + ([ws[i]] + ws[i + 1..]);
    UIntArrayConcat(ws[..i], [ws[i]] + ws[i + 1..]);
    UIntArrayConcat([ws[i]], ws[i + 1..]);
    UIntArraySingle(ws[i]);
    assert UIntArrayToByteArray(ws)[4 * i..4 * i + 4] == LeBytes(ws[i], 4);
    Pow2Literals();
    LeBytesBits(ws[i], 4);
  }

  /** Word slices are byte slices. */
  lemma UIntArraySlice(ws: seq<u32>, i: nat, j: nat, part: seq<u32>)
    requires i <= j <= |ws| && part == ws[i..j]
    ensures UIntArrayToByteArray(part) == UIntArrayToByteArray(ws)[4 * i..4 * j]
  {
    hide UIntArrayToByteArray;
    UIntArraySplit(ws, j);
    UIntArraySplit(ws[..j], i);
    assert ws[..j][i..] == part;
  }
}
