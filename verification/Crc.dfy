/**
 The checksum of the snapshot format (runtime/src/snapshot.rs): the reflected CRC-32 of
 section 8 of RFC 1952, computed one bit at a time.

 The error-detection theorems read a byte string as a bit string, least significant bit of
 each byte first: in that order the register takes in one message bit per shift.
 */
module Crc {
  import opened Prelude
  import opened ShiftRegister

  const POLYNOMIAL: bv32 := 0xEDB8_8320
  const ONES: bv32 := 0xFFFF_FFFF
  /** What the checksum of a body followed by its own checksum comes to. */
  const RESIDUE: bv32 := 0x2144_DF1C

  function Shift(c: bv32): bv32 {
    if c & 1 != 0 then (c >> 1) ^ POLYNOMIAL else c >> 1
  }

  function Xor(a: bv32, b: bv32): bv32 {
    a ^ b
  }

  function Feed(c: bv32, b: Byte): bv32 {
    Iterate(Shift, Xor(c, b as bv32), 8)
  }

  /** The register after feeding `data` to a register that holds `c`. */
  function Register(c: bv32, data: seq<Byte>): bv32 {
    Run(Feed, c, data)
  }

  function Crc32(data: seq<Byte>): bv32 {
    Xor(Register(ONES, data), ONES)
  }

  method Crc32Simple(data: seq<Byte>) returns (crc: bv32)
    ensures crc == Crc32(data)
  {
    crc := ONES;
    for k := 0 to |data|
      invariant crc == Register(ONES, data[..k])
    {
      RunStep(Feed, ONES, data, k);
      crc := FeedInPlace(crc, data[k]);
    }
    assert data[..|data|] == data;
    crc := crc ^ ONES;
  }

  /** The body of the loop over the bytes, with its inner loop over the eight bits. */
  method FeedInPlace(c: bv32, byte: Byte) returns (crc: bv32)
    ensures crc == Feed(c, byte)
  {
    crc := c ^ (byte as bv32);
    ghost var mixed := crc;
    for i := 0 to 8
      invariant crc == Iterate(Shift, mixed, i)
    {
      ghost var shifted := Shift(crc);
      crc := if crc & 1 != 0 then (crc >> 1) ^ POLYNOMIAL else crc >> 1;
      assert crc == shifted;
    }
  }

  // ---------- The 32-bit register as a shift-register machine ----------

  function Half(c: bv32): bv32 {
    c >> 1
  }

  predicate Odd(c: bv32) {
    c & 1 != 0
  }

  function BitWord(x: bool): bv32 {
    if x then 1 else 0
  }

  function Mask(x: bool): bv32 {
    if x then POLYNOMIAL else 0
  }

  function FeedBit(c: bv32, x: bool): bv32 {
    Shift(Xor(c, BitWord(x)))
  }

  const MACHINE: Machine<bv32> := Machine(0, Xor, Odd, Half, BitWord, Mask, Shift, FeedBit)
  const TOP: nat := 31

  // Bit-vector facts, kept small and apart: the solver expands every word it sees into bits.

  lemma XorAssociates(a: bv32, b: bv32, c: bv32)
    ensures Xor(Xor(a, b), c) == Xor(a, Xor(b, c))
  {
  }

  lemma XorCommutes(a: bv32, b: bv32)
    ensures Xor(a, b) == Xor(b, a)
  {
  }

  lemma XorNeutral(a: bv32)
    ensures Xor(0, a) == a == Xor(a, 0)
  {
  }

  lemma XorOff(a: bv32, m: bv32)
    ensures Xor(Xor(a, m), m) == a
  {
  }

  lemma XorSelf(a: bv32)
    ensures Xor(a, a) == 0
  {
  }

  lemma XorCancels(a: bv32, b: bv32)
    ensures Xor(a, b) == 0 <==> a == b
  {
    if Xor(a, b) == 0 {
      XorOff(a, b);
      XorNeutral(b);
    }
    XorSelf(a);
  }

  lemma HalfIsLinear(a: bv32, b: bv32)
    ensures Half(Xor(a, b)) == Xor(Half(a), Half(b))
  {
  }

  lemma OddIsLinear(a: bv32, b: bv32)
    ensures Odd(Xor(a, b)) == (Odd(a) != Odd(b))
  {
  }

  lemma ShiftMixesInTheMask(c: bv32)
    ensures Shift(c) == Xor(Half(c), Mask(Odd(c)))
    ensures Shift(c) == 0 ==> c == 0
  {
  }

  lemma BitsAdd(x: bool, y: bool)
    ensures Half(BitWord(x)) == 0 && Odd(BitWord(x)) == x
    ensures BitWord(x != y) == Xor(BitWord(x), BitWord(y))
    ensures Mask(x != y) == Xor(Mask(x), Mask(y))
  {
  }

  lemma MachineLaws()
    ensures Laws(MACHINE)
  {
    forall a, b, c ensures Associates(MACHINE, a, b, c) { XorAssociates(a, b, c); }
    forall a, b ensures Commutes(MACHINE, a, b) { XorCommutes(a, b); }
    forall a ensures Neutral(MACHINE, a) { XorNeutral(a); }
    forall a, b ensures Cancels(MACHINE, a, b) { XorCancels(a, b); }
    forall a, b ensures Halves(MACHINE, a, b) {
      HalfIsLinear(a, b);
      OddIsLinear(a, b);
    }
    forall x ensures OneBit(MACHINE, x) { BitsAdd(x, x); }
    forall x, y ensures BitSum(MACHINE, x, y) { BitsAdd(x, y); }
    forall c ensures Shifts(MACHINE, c) { ShiftMixesInTheMask(c); }
    forall c, x ensures Feeds(MACHINE, c, x) { }
  }

  lemma FeedBitTopsOrHalves(d: bv32, x: bool)
    ensures FeedBit(d, x) >= 0x8000_0000 || FeedBit(d, x) == Half(d)
  {
  }

  lemma HalveTwice(x: bv32)
    ensures Iterate(Half, x, 2) == x >> 2
  {
    assert Iterate(Half, x, 1) == Half(x);
  }

  lemma HalveFourTimes(x: bv32)
    ensures Iterate(Half, x, 4) == x >> 4
  {
    IterateAppend(Half, x, 2, 2);
    HalveTwice(x);
    HalveTwice(x >> 2);
  }

  lemma HalveEightTimes(x: bv32)
    ensures Iterate(Half, x, 8) == x >> 8
  {
    IterateAppend(Half, x, 4, 4);
    HalveFourTimes(x);
    HalveFourTimes(x >> 4);
  }

  lemma HalveThreeBytes(x: bv32)
    ensures Iterate(Half, x, 24) == x >> 24
  {
    IterateAppend(Half, x, 8, 8);
    IterateAppend(Half, x, 16, 8);
    HalveEightTimes(x);
    HalveEightTimes(x >> 8);
    HalveEightTimes((x >> 8) >> 8);
    assert ((x >> 8) >> 8) >> 8 == x >> 24;
  }

  lemma HalveAway(x: bv32)
    ensures Iterate(Half, x, 32) == 0
  {
    IterateAppend(Half, x, 24, 8);
    HalveThreeBytes(x);
    HalveEightTimes(x >> 24);
    assert (x >> 24) >> 8 == 0;
  }

  lemma TopBitIsAbove(c: bv32)
    requires c >= 0x8000_0000
    ensures Above(MACHINE, c, TOP)
  {
    HalveThreeBytes(c);
    var y := c >> 24;
    IterateAppend(Half, c, 24, 7);
    IterateAppend(Half, y, 4, 2);
    IterateAppend(Half, y, 6, 1);
    HalveFourTimes(y);
    HalveTwice(y >> 4);
    assert Iterate(Half, y >> 6, 1) == Half(y >> 6);
  }

  lemma MachineTops()
    ensures TopLaws(MACHINE, TOP)
  {
    forall d, x ensures TopOrHalf(MACHINE, TOP, d, x) {
      FeedBitTopsOrHalves(d, x);
      if FeedBit(d, x) >= 0x8000_0000 {
        TopBitIsAbove(FeedBit(d, x));
      }
    }
    assert FeedBit(0, true) == POLYNOMIAL;
    TopBitIsAbove(POLYNOMIAL);
  }

  // ---------- Bytes as bits ----------

  const BYTE_WIDTH: nat := 8

  /** The bits of a byte, least significant first. */
  function ByteBits(b: Byte): (bits: seq<bool>)
    ensures |bits| == 8
  {
    LowBits(Odd, Half, b as bv32, BYTE_WIDTH)
  }

  function Bits(data: seq<Byte>): (bits: seq<bool>)
    ensures |bits| == 8 * |data|
  {
    FlattenLength(ByteBits, data);
    Flatten(ByteBits, data)
  }

  lemma FeedIsSerial(c: bv32, b: Byte)
    ensures Feed(c, b) == Run(FeedBit, c, ByteBits(b))
  {
    MachineLaws();
    var x := b as bv32;
    ShiftsAreSerial(MACHINE, c, x, 8);
    HalveEightTimes(x);
    ByteIsShort(b);
    XorNeutral(Run(FeedBit, c, ByteBits(b)));
  }

  lemma ByteIsShort(b: Byte)
    ensures (b as bv32) >> 8 == 0
  {
  }

  /** Byte-wise and bit-wise processing agree. */
  lemma {:induction false} RegisterIsSerial(c: bv32, data: seq<Byte>)
    ensures Register(c, data) == Run(FeedBit, c, Bits(data))
  {
    if |data| > 0 {
      var n := |data| - 1;
      RegisterIsSerial(c, data[..n]);
      FeedIsSerial(Register(c, data[..n]), data[n]);
      RunAppend(FeedBit, c, Bits(data[..n]), ByteBits(data[n]));
    }
  }

  lemma OddAndHalfDetermine(a: bv32, b: bv32)
    ensures Determined(Odd, Half, a, b)
  {
  }

  lemma ByteBitsAreInjective(a: Byte, b: Byte)
    requires ByteBits(a) == ByteBits(b)
    ensures a == b
  {
    var x, y := a as bv32, b as bv32;
    forall v, w ensures Determined(Odd, Half, v, w) { OddAndHalfDetermine(v, w); }
    HalveEightTimes(x);
    HalveEightTimes(y);
    ByteIsShort(a);
    ByteIsShort(b);
    LowBitsDetermine(Odd, Half, x, y, 8);
    WideningIsInjective(a, b);
  }

  lemma WideningIsInjective(a: Byte, b: Byte)
    ensures a as bv32 == b as bv32 ==> a == b
  {
  }

  lemma BitsAreInjective(a: seq<Byte>, b: seq<Byte>)
    requires |a| == |b| && Bits(a) == Bits(b)
    ensures a == b
  {
    forall v, w | ByteBits(v) == ByteBits(w) ensures v == w { ByteBitsAreInjective(v, w); }
    FlattenIsInjective(ByteBits, a, b);
  }

  // ---------- What the checksum detects ----------

  /** All bits in which `a` and `b` differ lie in the 32 bits from `start` on. */
  ghost predicate DifferInBurst(a: seq<Byte>, b: seq<Byte>, start: nat)
    requires |a| == |b|
  {
    forall i :: 0 <= i < 8 * |a| && Bits(a)[i] != Bits(b)[i] ==> start <= i < start + 32
  }

  lemma ComplementIsInjective(a: bv32, b: bv32)
    ensures Xor(a, ONES) == Xor(b, ONES) ==> a == b
  {
  }

  /**
   Any error burst of at most 32 consecutive bits, at any bit offset, changes the checksum:
   two byte strings of equal length that differ, and differ only there, have different CRCs.
   */
  lemma BurstChangesCrc(a: seq<Byte>, b: seq<Byte>, start: nat)
    requires |a| == |b| && a != b && DifferInBurst(a, b, start)
    ensures Crc32(a) != Crc32(b)
  {
    RegistersDiffer(a, b, start);
    ComplementIsInjective(Register(ONES, a), Register(ONES, b));
  }

  lemma RegistersDiffer(a: seq<Byte>, b: seq<Byte>, start: nat)
    requires |a| == |b| && a != b && DifferInBurst(a, b, start)
    ensures Register(ONES, a) != Register(ONES, b)
  {
    MachineLaws();
    MachineTops();
    if Bits(a) == Bits(b) {
      BitsAreInjective(a, b);
    }
    BurstKeepsApart(MACHINE, TOP, ONES, Bits(a), Bits(b), start);
    RegisterIsSerial(ONES, a);
    RegisterIsSerial(ONES, b);
  }

  /** In particular, bytes changed only within four consecutive positions form such a burst. */
  lemma WindowIsBurst(a: seq<Byte>, b: seq<Byte>, start: nat)
    requires |a| == |b|
    requires forall i :: 0 <= i < |a| && a[i] != b[i] ==> start <= i < start + 4
    ensures DifferInBurst(a, b, 8 * start)
  {
    forall i | 0 <= i < 8 * |a| && Bits(a)[i] != Bits(b)[i]
      ensures 8 * start <= i < 8 * start + 32
    {
      FlattenWindow(ByteBits, a, b, start, i);
    }
  }

  // ---------- The checksum of a file that carries its own checksum ----------

  function LowByte(v: bv32): Byte {
    (v & 0xFF) as Byte
  }

  /** A word as four bytes, least significant first. */
  function WordBytes(v: bv32): (s: seq<Byte>)
    ensures |s| == 4
  {
    [LowByte(v), LowByte(v >> 8), LowByte(v >> 16), LowByte(v >> 24)]
  }

  function BytesWord(a: Byte, b: Byte, c: Byte, d: Byte): bv32 {
    (a as bv32) | ((b as bv32) << 8) | ((c as bv32) << 16) | ((d as bv32) << 24)
  }

  lemma WordBytesInvert(v: bv32)
    ensures BytesWord(LowByte(v), LowByte(v >> 8), LowByte(v >> 16), LowByte(v >> 24)) == v
  {
  }

  lemma BytesWordInverts(a: Byte, b: Byte, c: Byte, d: Byte)
    ensures WordBytes(BytesWord(a, b, c, d)) == [a, b, c, d]
  {
  }

  function And(a: bv32, b: bv32): bv32 {
    a & b
  }

  lemma HalfOfAnd(a: bv32, b: bv32)
    ensures Distributes(Half, And, a, b)
    ensures Odd(And(a, b)) == (Odd(a) && Odd(b))
  {
  }

  lemma HalvesOfAnd(a: bv32, b: bv32, n: nat)
    ensures Iterate(Half, And(a, b), n) == And(Iterate(Half, a, n), Iterate(Half, b, n))
  {
    forall v, w ensures Distributes(Half, And, v, w) { HalfOfAnd(v, w); }
    IterateDistributes(Half, And, a, b, n);
  }

  lemma {:induction false} LowByteKeepsLowBits(v: bv32, n: nat)
    requires n <= 8
    ensures LowBits(Odd, Half, LowByte(v) as bv32, n) == LowBits(Odd, Half, v, n)
  {
    if n > 0 {
      LowByteKeepsLowBits(v, n - 1);
      LowByteIsMasked(v);
      HalvesOfAnd(v, 0xFF, n - 1);
      HalfOfAnd(Iterate(Half, v, n - 1), Iterate(Half, 0xFF, n - 1));
      MaskBits(n - 1);
    }
  }

  lemma LowByteIsMasked(v: bv32)
    ensures LowByte(v) as bv32 == And(v, 0xFF)
  {
  }

  lemma MaskBits(n: nat)
    requires n < 8
    ensures Odd(Iterate(Half, 0xFF as bv32, n))
  {
    var m: bv32 := 0xFF;
    assert Iterate(Half, m, 1) == 0x7F;
    assert Iterate(Half, m, 2) == 0x3F;
    assert Iterate(Half, m, 3) == 0x1F;
    assert Iterate(Half, m, 4) == 0x0F;
    assert Iterate(Half, m, 5) == 0x07;
    assert Iterate(Half, m, 6) == 0x03;
    assert Iterate(Half, m, 7) == 0x01;
  }

  lemma FourByteBits(v: bv32, a: Byte, b: Byte, c: Byte, d: Byte)
    requires ByteBits(a) == LowBits(Odd, Half, v, BYTE_WIDTH)
    requires ByteBits(b) == LowBits(Odd, Half, Iterate(Half, v, 8), BYTE_WIDTH)
    requires ByteBits(c) == LowBits(Odd, Half, Iterate(Half, v, 16), BYTE_WIDTH)
    requires ByteBits(d) == LowBits(Odd, Half, Iterate(Half, v, 24), BYTE_WIDTH)
    ensures Bits([a, b, c, d]) == LowBits(Odd, Half, v, 4 * BYTE_WIDTH)
  {
    FlattenFour(ByteBits, a, b, c, d);
    LowBitsInFourParts(Odd, Half, v, BYTE_WIDTH);
  }

  lemma WordBytesBits(v: bv32)
    ensures Bits(WordBytes(v)) == LowBits(Odd, Half, v, 4 * BYTE_WIDTH)
  {
    LowByteBits(v);
    SecondByteBits(v);
    ThirdByteBits(v);
    FourthByteBits(v);
    FourByteBits(v, LowByte(v), LowByte(v >> 8), LowByte(v >> 16), LowByte(v >> 24));
  }

  lemma LowByteBits(v: bv32)
    ensures ByteBits(LowByte(v)) == LowBits(Odd, Half, v, BYTE_WIDTH)
  {
    LowByteKeepsLowBits(v, BYTE_WIDTH);
  }

  lemma SecondByteBits(v: bv32)
    ensures ByteBits(LowByte(v >> 8)) == LowBits(Odd, Half, Iterate(Half, v, 8), BYTE_WIDTH)
  {
    HalveEightTimes(v);
    LowByteBits(v >> 8);
  }

  lemma ThirdByteBits(v: bv32)
    ensures ByteBits(LowByte(v >> 16)) == LowBits(Odd, Half, Iterate(Half, v, 16), BYTE_WIDTH)
  {
    HalveTwoBytes(v);
    LowByteBits(v >> 16);
  }

  lemma FourthByteBits(v: bv32)
    ensures ByteBits(LowByte(v >> 24)) == LowBits(Odd, Half, Iterate(Half, v, 24), BYTE_WIDTH)
  {
    HalveThreeBytes(v);
    LowByteBits(v >> 24);
  }

  lemma HalveTwoBytes(x: bv32)
    ensures Iterate(Half, x, 16) == x >> 16
  {
    IterateAppend(Half, x, 8, 8);
    HalveEightTimes(x);
    HalveEightTimes(x >> 8);
  }

  lemma FeedingAWordIsShifting(c: bv32, v: bv32)
    ensures Register(c, WordBytes(v)) == Iterate(Shift, Xor(c, v), 32)
  {
    MachineLaws();
    RegisterIsSerial(c, WordBytes(v));
    WordBytesBits(v);
    ShiftsAreSerial(MACHINE, c, v, 32);
    HalveAway(v);
    XorNeutral(Run(FeedBit, c, Bits(WordBytes(v))));
  }

  lemma {:induction false} ShiftsAreInjective(a: bv32, b: bv32, n: nat)
    requires Iterate(Shift, a, n) == Iterate(Shift, b, n)
    ensures a == b
  {
    if n > 0 {
      ShiftIsInjective(Iterate(Shift, a, n - 1), Iterate(Shift, b, n - 1));
      ShiftsAreInjective(a, b, n - 1);
    }
  }

  lemma ShiftIsInjective(a: bv32, b: bv32)
    ensures Shift(a) == Shift(b) ==> a == b
  {
  }

  lemma OnesShiftedAway()
    ensures Iterate(Shift, ONES, 32) == Xor(RESIDUE, ONES)
  {
    assert Iterate(Shift, ONES, 8) == 0x2DFD1072;
    assert Iterate(Shift, 0x2DFD1072 as bv32, 8) == 0xBE26_ED00;
    assert Iterate(Shift, 0xBE26_ED00 as bv32, 8) == 0x00BE_26ED;
    assert Iterate(Shift, 0x00BE_26ED as bv32, 8) == 0xDEBB_20E3;
    IterateAppend(Shift, ONES, 8, 8);
    IterateAppend(Shift, ONES, 16, 8);
    IterateAppend(Shift, ONES, 24, 8);
  }

  lemma ShiftedAwayToResidue(r: bv32, t: bv32)
    ensures Xor(Iterate(Shift, Xor(r, t), 32), ONES) == RESIDUE <==> t == Xor(r, ONES)
  {
    var s := Iterate(Shift, Xor(r, t), 32);
    OnesShiftedAway();
    Complement(s, RESIDUE);
    if s == Iterate(Shift, ONES, 32) {
      ShiftsAreInjective(Xor(r, t), ONES, 32);
      XorBack(r, t);
    } else if t == Xor(r, ONES) {
      XorBack(r, ONES);
    }
  }

  /**
   A body followed by four bytes, least significant first, has the fixed checksum RESIDUE
   exactly when those bytes are the body's checksum.
   */
  lemma ChecksumClosesToResidue(body: seq<Byte>, t: bv32)
    ensures Crc32(body + WordBytes(t)) == RESIDUE <==> t == Crc32(body)
  {
    RunAppend(Feed, ONES, body, WordBytes(t));
    FeedingAWordIsShifting(Register(ONES, body), t);
    ShiftedAwayToResidue(Register(ONES, body), t);
  }

  lemma Complement(a: bv32, b: bv32)
    ensures Xor(a, ONES) == b <==> a == Xor(b, ONES)
  {
    XorOff(a, ONES);
    XorOff(b, ONES);
  }

  lemma XorBack(a: bv32, b: bv32)
    ensures Xor(Xor(a, b), a) == b && Xor(a, Xor(a, b)) == b
  {
  }

  lemma CheckSteps()
    ensures Feed(ONES, 0x31) == 0x7C23_1048
    ensures Feed(0x7C23_1048, 0x32) == 0xB0AC_BB32
    ensures Feed(0xB0AC_BB32, 0x33) == 0x77B7_9C2D
    ensures Feed(0x77B7_9C2D, 0x34) == 0x641C_1F5C
    ensures Feed(0x641C_1F5C, 0x35) == 0x340A_C5E3
    ensures Feed(0x340A_C5E3, 0x36) == 0xF68D_2C9E
    ensures Feed(0xF68D_2C9E, 0x37) == 0xAFFC_9660
    ensures Feed(0xAFFC_9660, 0x38) == 0x651F_2550
    ensures Feed(0x651F_2550, 0x39) == 0x340B_C6D9
  {
  }

  /** The check value of this CRC: that of the ASCII string "123456789". */
  lemma CheckValue()
    ensures Crc32([0x31, 0x32, 0x33, 0x34, 0x35, 0x36, 0x37, 0x38, 0x39]) == 0xCBF4_3926
  {
    CheckSteps();
    var t: seq<bv32> := [0x7C23_1048, 0xB0AC_BB32, 0x77B7_9C2D, 0x641C_1F5C, 0x340A_C5E3,
                         0xF68D_2C9E, 0xAFFC_9660, 0x651F_2550, 0x340B_C6D9];
    RunAlong(Feed, ONES, [0x31, 0x32, 0x33, 0x34, 0x35, 0x36, 0x37, 0x38, 0x39], t);
  }
}
