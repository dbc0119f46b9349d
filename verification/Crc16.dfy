/** The checksum of the OPC-N3 particle sensor (Firmware/src/opc_n3.c): a reflected
    CRC-16 with polynomial 0xA001 and initial value 0xFFFF, the algorithm of section
    6.2.2 of MODBUS over Serial Line V1.02.  The bits of a word, least significant
    first, are the cells of the ShiftRegister. */
module Crc16 {
  import opened Bytes
  import opened ShiftRegister

  const OPC_OK := 0
  const OPC_HISTOGRAM_SIZE := 86
  const OPC_HISTOGRAM_CHECKSUM_INDEX := 84

  // ---------------------------------------------------------------------------
  // Words as register contents
  // ---------------------------------------------------------------------------

  function Cells(w: Word): Register {
    LowBits(w, 16)
  }

  lemma WordBound()
    ensures Pow2(8) == 0x100 && Pow2(16) == 0x1_0000
  {
  }

  function XorWord(x: Word, y: Word): (r: Word)
    ensures Cells(r) == Xor(Cells(x), Cells(y))
  {
    WordBound();
    BitXorBound(x, y, 16);
    LowBitsOfXor(x, y, 16);
    BitXor(x, y)
  }

  lemma CellsInjective(x: Word, y: Word)
    requires Cells(x) == Cells(y)
    ensures x == y
  {
    WordBound();
    LowBitsInjective(x, y, 16);
  }

  /** The two arms of the inner loop are one shift of the register. */
  lemma CellsOfShift(w: Word)
    ensures w % 2 == 0 ==> Cells(w / 2) == Step(Cells(w))
    ensures w % 2 == 1 ==> Cells(XorWord(w / 2, 0xA001)) == Step(Cells(w))
  {
    WordBound();
    LowBitsOfHalf(w, 16);
    assert Cells(w)[0] == (w % 2 == 1);
    PolynomialIsTaps();
  }

  lemma PolynomialIsTaps()
    ensures forall i :: 0 <= i < 16 ==> Cells(0xA001)[i] == Tap(i)
  {
    var top := LowBits(5, 3);
    assert Shl(5, 12) == 0x5000;
    LowBitsOfShl(5, 3, 12);
    assert Cells(0xA001) == [true] + seq(12, i => false) + top;
    assert LowBits(2, 2) == [false, true];
    assert top == [true, false, true];
  }

  lemma InitialCells()
    ensures Cells(0xFFFF) == AllSet()
  {
    WordBound();
    LowBitsOfAllOnes(0xFFFF, 16);
  }

  // ---------------------------------------------------------------------------
  // OPC_calcCRC
  // ---------------------------------------------------------------------------

  /** A message as the sensor shifts it out: bytes in order, low bit of each first. */
  function Bits(data: seq<Byte>): (bits: seq<bool>)
    ensures |bits| == 8 * |data|
  {
    if data == [] then [] else Bits(data[..|data| - 1]) + LowBits(data[|data| - 1], 8)
  }

  /** The checksum register after a message. */
  function Crc(data: seq<Byte>): Register {
    Feed(AllSet(), Bits(data))
  }

  lemma {:induction false} LowBitsPadded(x: nat, n: nat, more: nat)
    requires x < Pow2(n)
    ensures LowBits(x, n + more) == LowBits(x, n) + seq(more, i => false)
    decreases n, more
  {
    if n > 0 {
      LowBitsPadded(x / 2, n - 1, more);
    } else if more > 0 {
      LowBitsPadded(0, 0, more - 1);
      assert [false] + seq(more - 1, i => false) == seq(more, i => false);
    }
  }

  lemma CellsOfByte(b: Byte)
    ensures Cells(b) == Pad(LowBits(b, 8))
  {
    WordBound();
    LowBitsPadded(b, 8, 8);
  }

  /** The outer loop: adding a byte into the register and shifting eight times feeds
      its bits. */
  lemma CrcSnoc(data: seq<Byte>, b: Byte)
    ensures Crc(data + [b]) == Steps(Xor(Crc(data), Cells(b)), 8)
  {
    assert (data + [b])[..|data|] == data;
    FeedConcat(AllSet(), Bits(data), LowBits(b, 8));
    FeedWord(Crc(data), LowBits(b, 8));
    CellsOfByte(b);
  }

  lemma CrcStep(data: seq<Byte>, n: nat)
    requires n < |data|
    ensures Crc(data[..n + 1]) == Steps(Xor(Crc(data[..n]), Cells(data[n])), 8)
  {
    assert data[..n + 1] == data[..n] + [data[n]];
    CrcSnoc(data[..n], data[n]);
  }

  /** OPC_calcCRC.  Both counters are 8 bits wide, so a call covers at most 255 bytes. */
  method CalcCrc(data: array<Byte>, numberOfBytes: Byte) returns (crc: Word)
    requires numberOfBytes <= data.Length
    ensures Cells(crc) == Crc(data[..numberOfBytes])
    ensures numberOfBytes == 0 ==> crc == 0xFFFF
  {
    crc := 0xFFFF;
    InitialCells();
    for byteCounter := 0 to numberOfBytes
      invariant byteCounter == 0 ==> crc == 0xFFFF
      invariant Cells(crc) == Crc(data[..byteCounter])
    {
      CrcStep(data[..], byteCounter);
      crc := XorWord(crc, data[byteCounter]);
      ghost var start := Cells(crc);
      for bit := 0 to 8
        invariant Cells(crc) == Steps(start, bit)
      {
        CellsOfShift(crc);
        if crc % 2 == 1 {
          crc := crc / 2;
          crc := XorWord(crc, 0xA001);
        } else {
          crc := crc / 2;
        }
      }
    }
  }

  // ---------------------------------------------------------------------------
  // What the checksum detects
  // ---------------------------------------------------------------------------

  /** The bitwise sum of two messages. */
  function XorData(a: seq<Byte>, b: seq<Byte>): (r: seq<Byte>)
    requires |a| == |b|
    ensures |r| == |a|
  {
    seq(|a|, i requires 0 <= i < |a| => XorByte(a[i], b[i]))
  }

  function XorByte(x: Byte, y: Byte): (r: Byte)
    ensures LowBits(r, 8) == Xor(LowBits(x, 8), LowBits(y, 8))
  {
    WordBound();
    BitXorBound(x, y, 8);
    LowBitsOfXor(x, y, 8);
    BitXor(x, y)
  }

  lemma {:induction false} BitsOfXor(a: seq<Byte>, b: seq<Byte>)
    requires |a| == |b|
    ensures Bits(XorData(a, b)) == Xor(Bits(a), Bits(b))
  {
    if a != [] {
      var n := |a| - 1;
      assert XorData(a, b)[..n] == XorData(a[..n], b[..n]);
      BitsOfXor(a[..n], b[..n]);
    }
  }

  lemma SamePieces(x: seq<bool>, y: seq<bool>, u: seq<bool>, v: seq<bool>)
    requires x + y == u + v && |x| == |u|
    ensures x == u && y == v
  {
    assert x == (x + y)[..|x|] && u == (u + v)[..|u|];
    assert y == (x + y)[|x|..] && v == (u + v)[|u|..];
  }

  lemma {:induction false} BitsInjective(a: seq<Byte>, b: seq<Byte>)
    requires |a| == |b| && Bits(a) == Bits(b)
    ensures a == b
  {
    if a != [] {
      var n := |a| - 1;
      SamePieces(Bits(a[..n]), LowBits(a[n], 8), Bits(b[..n]), LowBits(b[n], 8));
      BitsInjective(a[..n], b[..n]);
      WordBound();
      LowBitsInjective(a[n], b[n], 8);
      assert a == a[..n] + [a[n]] && b == b[..n] + [b[n]];
    }
  }

  /** The difference of two checksums is the register, started empty, run over the
      difference of the messages. */
  lemma CrcDifference(a: seq<Byte>, b: seq<Byte>)
    requires |a| == |b|
    ensures Xor(Crc(a), Crc(b)) == Feed(Zeros(), Xor(Bits(a), Bits(b)))
  {
    FeedLinear(AllSet(), AllSet(), Bits(a), Bits(b));
    assert Xor(AllSet(), AllSet()) == Zeros();
  }

  /** The checksum is affine: three equal-length messages and their sum agree. */
  lemma CrcAffine(a: seq<Byte>, b: seq<Byte>, c: seq<Byte>)
    requires |a| == |b| == |c|
    ensures Xor(Xor(Crc(a), Crc(b)), Crc(c)) == Crc(XorData(XorData(a, b), c))
  {
    var z := AllSet();
    BitsOfXor(a, b);
    BitsOfXor(XorData(a, b), c);
    FeedLinear(z, z, Bits(a), Bits(b));
    FeedLinear(Xor(z, z), z, Xor(Bits(a), Bits(b)), Bits(c));
    assert Xor(Xor(z, z), z) == z;
  }

  /** Two different messages of the same length that differ only inside a window of
      sixteen consecutive bits never share a checksum. */
  lemma BurstErrorsAreDetected(a: seq<Byte>, b: seq<Byte>, lo: nat)
    requires |a| == |b| && a != b
    requires forall i :: 0 <= i < 8 * |a| && Bits(a)[i] != Bits(b)[i] ==> lo <= i < lo + 16
    ensures Crc(a) != Crc(b)
  {
    var errors := Xor(Bits(a), Bits(b));
    if forall i :: 0 <= i < |errors| ==> !errors[i] {
      assert forall i :: 0 <= i < |errors| ==> errors[i] == (Bits(a)[i] != Bits(b)[i]);
      BitsInjective(a, b);
    } else {
      var k :| 0 <= k < |errors| && errors[k];
      var width := if lo + 16 <= |errors| then 16 else |errors| - lo;
      BurstLeavesATrace(errors, lo, width, k);
      CrcDifference(a, b);
      XorIsZero(Crc(a), Crc(b));
    }
  }

  /** Sixteen is the best possible: of the patterns one bit wider that begin with a wrong bit,
      exactly one is missed, and that is the polynomial x^16 + x^15 + x^2 + 1. */
  lemma SeventeenBitErrorsAreMissedIff(a: seq<Byte>, b: seq<Byte>, lo: nat)
    requires |a| == |b| && lo + 17 <= 8 * |a| && Bits(a)[lo] != Bits(b)[lo]
    requires forall i :: 0 <= i < 8 * |a| && Bits(a)[i] != Bits(b)[i] ==> lo <= i < lo + 17
    ensures Crc(a) == Crc(b) <==>
            forall i :: lo <= i < lo + 17 ==>
              (Bits(a)[i] != Bits(b)[i] <==> i == lo || i == lo + 1 || i == lo + 14 || i == lo + 16)
  {
    GeneratorAt(Bits(a), Bits(b), lo);
    WideBurstLeavesNoTrace(Xor(Bits(a), Bits(b)), lo);
    CrcDifference(a, b);
    XorIsZero(Crc(a), Crc(b));
  }

  lemma GeneratorAt(x: seq<bool>, y: seq<bool>, lo: nat)
    requires |x| == |y| && lo + 17 <= |x|
    ensures forall i :: 0 <= i < |x| ==> Xor(x, y)[i] == (x[i] != y[i])
    ensures IsGenerator(Xor(x, y)[lo..lo + 17]) <==>
            forall i :: lo <= i < lo + 17 ==>
              (x[i] != y[i] <==> i == lo || i == lo + 1 || i == lo + 14 || i == lo + 16)
  {
    var word := Xor(x, y)[lo..lo + 17];
    forall i | lo <= i < lo + 17
      ensures word[i - lo] == (x[i] != y[i])
    {
    }
  }

  /** In the words of the code: a difference of 0xA001 between two registers, which is what
      one wrong bit leaves behind, cannot be undone by the next fifteen bits, whatever they
      are. */
  lemma OneWrongBitSurvives(bits: seq<bool>)
    requires |bits| < 16
    ensures Feed(Cells(0xA001), bits) != Zeros()
  {
    PolynomialIsTaps();
    assert [true][..0] == [];
    assert Feed(Zeros(), [true]) == Step(Flip(Zeros(), true)) == Cells(0xA001);
    FeedConcat(Zeros(), [true], bits);
    ShortWordLeavesATrace([true] + bits, 0);
  }

  /** Two messages of the same length that differ in an odd number of bits, wherever
      those are, never share a checksum. */
  lemma OddErrorsAreDetected(a: seq<Byte>, b: seq<Byte>)
    requires |a| == |b|
    requires Ones(Xor(Bits(a), Bits(b))) % 2 == 1
    ensures Crc(a) != Crc(b)
  {
    CrcDifference(a, b);
    FeedParity(Zeros(), Xor(Bits(a), Bits(b)));
    OddOfZeros(16);
    assert Zeros() == seq(16, i => false);
    XorIsZero(Crc(a), Crc(b));
  }

  // ---------------------------------------------------------------------------
  // What the start value is for
  // ---------------------------------------------------------------------------

  lemma ZeroByteBits()
    ensures Bits([0]) == LowBits(0, 8) && forall i :: 0 <= i < 8 ==> !LowBits(0, 8)[i]
  {
    assert [0][..0] == [];
    assert [] + LowBits(0, 8) == LowBits(0, 8);
    LowBitsPadded(0, 0, 8);
  }

  lemma {:induction false} BitsConcat(a: seq<Byte>, b: seq<Byte>)
    ensures Bits(a + b) == Bits(a) + Bits(b)
  {
    if b == [] {
      assert a + b == a;
    } else {
      var n := |b| - 1;
      assert (a + b)[..|a + b| - 1] == a + b[..n];
      BitsConcat(a, b[..n]);
    }
  }

  /** A zero byte in front of a message always changes the checksum, which an empty register
      would not notice. */
  lemma LeadingZeroIsDetected(data: seq<Byte>)
    ensures Crc([0] + data) != Crc(data)
  {
    ZeroByteBits();
    BitsConcat([0], data);
    FeedConcat(AllSet(), Bits([0]), Bits(data));
    FeedZeros(AllSet(), Bits([0]));
    GapMovesDown(8);
    if Crc([0] + data) == Crc(data) {
      FeedInjective(Feed(AllSet(), Bits([0])), AllSet(), Bits(data));
    }
  }

  lemma {:induction false} ZeroBits(data: seq<Byte>)
    requires forall k :: 0 <= k < |data| ==> data[k] == 0
    ensures forall i :: 0 <= i < |Bits(data)| ==> !Bits(data)[i]
  {
    if data != [] {
      ZeroBits(data[..|data| - 1]);
      ZeroByteBits();
    }
  }

  /** What a silent bus sends, zeros and nothing else, is never taken for a frame. */
  lemma SilenceIsNoFrame(data: seq<Byte>)
    requires forall k :: 0 <= k < |data| ==> data[k] == 0
    ensures Crc(data) != Zeros()
  {
    ZeroBits(data);
    FeedZeros(AllSet(), Bits(data));
    StepsOfZero(8 * |data|);
    assert AllSet()[0] && !Zeros()[0];
    if Crc(data) == Zeros() {
      StepsInjective(AllSet(), Zeros(), 8 * |data|);
    }
  }

  // ---------------------------------------------------------------------------
  // The check at the end of opc_sample
  // ---------------------------------------------------------------------------

  /** get_uint16_value on the little-endian target. */
  function GetUint16Value(low: Byte, high: Byte): Word {
    low + 0x100 * high
  }

  lemma CellsOfUint16(low: Byte, high: Byte)
    ensures Cells(GetUint16Value(low, high)) == LowBits(low, 8) + LowBits(high, 8)
  {
    assert Pow2(8) == 0x100 && Shl(high, 8) == 0x100 * high by {
      ShlByWidth(high);
    }
    LowBitsOfHalves(GetUint16Value(low, high), low, high, 8, 16);
  }

  lemma LowBitsOfHalves(w: nat, low: nat, high: nat, n: nat, width: nat)
    requires low < Pow2(n) && w == low + Shl(high, n) && width == n + n
    ensures LowBits(w, width) == LowBits(low, n) + LowBits(high, n)
  {
    LowBitsOfPair(low, high, n, n);
  }

  lemma {:induction false} LowBitsOfPair(low: nat, high: nat, n: nat, m: nat)
    requires low < Pow2(n)
    ensures LowBits(low + Shl(high, n), n + m) == LowBits(low, n) + LowBits(high, m)
    decreases n
  {
    if n > 0 {
      var rest := Shl(high, n - 1);
      assert (low + 2 * rest) / 2 == low / 2 + rest && (low + 2 * rest) % 2 == low % 2;
      LowBitsOfPair(low / 2, high, n - 1, m);
    }
  }

  /** Appending two bytes empties the register exactly when they are the low and the
      high byte of what it held. */
  lemma ResidueIsZero(data: seq<Byte>, low: Byte, high: Byte)
    ensures Crc(data + [low, high]) == Zeros() <==> Cells(GetUint16Value(low, high)) == Crc(data)
  {
    var word := LowBits(low, 8) + LowBits(high, 8);
    CellsOfUint16(low, high);
    assert (data + [low, high])[..|data| + 1] == data + [low];
    assert (data + [low])[..|data|] == data;
    assert Bits(data + [low, high]) == Bits(data) + word;
    FeedConcat(AllSet(), Bits(data), word);
    FeedWord(Crc(data), word);
    StepsOfZero(16);
    assert Pad(word) == word;
    XorIsZero(Crc(data), word);
    if Crc(data + [low, high]) == Zeros() {
      StepsInjective(Xor(Crc(data), word), Zeros(), 16);
    }
  }

  /** The verdict of opc_sample on the bytes the sensor returned: it accepts exactly the
      frames whose 86 bytes leave the register empty. */
  method OpcSample(histogram: array<Byte>) returns (accepted: bool)
    requires histogram.Length == 86
    ensures accepted <==> Crc(histogram[..]) == Zeros()
  {
    var n := OPC_HISTOGRAM_CHECKSUM_INDEX;
    var checksum := GetUint16Value(histogram[n], histogram[n + 1]);
    var crc := CalcCrc(histogram, OPC_HISTOGRAM_SIZE - 2);
    ResidueIsZero(histogram[..n], histogram[n], histogram[n + 1]);
    assert histogram[..] == histogram[..n] + [histogram[n], histogram[n + 1]];
    if checksum != crc {
      if Cells(checksum) == Cells(crc) {
        CellsInjective(checksum, crc);
      }
      return false;
    }
    return true;
  }

  /** opc_n3_sample_data compares the verdict, 0 or 1 in C, with OPC_OK, so the flag
      stored with the sample has the opposite polarity: it is set exactly for the
      frames that fail the check. */
  method SampleData(histogram: array<Byte>) returns (valid: bool)
    requires histogram.Length == 86
    ensures valid <==> Crc(histogram[..]) != Zeros()
  {
    var accepted := OpcSample(histogram);
    valid := OPC_OK == (if accepted then 1 else 0);
  }
}
