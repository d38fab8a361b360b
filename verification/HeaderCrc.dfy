/**
 * The header checksum: a bitwise CRC with generator x^16 + x^12 + x^5 + 1 and initial register
 * 0xFFFF, against polynomial division and against error bursts.
 */
module HeaderCrc {
  import opened Bytes

  predicate TopBit(x: bv16) {
    x & 0x8000 != 0
  }

  function Xor(x: bv16, y: bv16): bv16 {
    x ^ y
  }

  // ----- The code -----

  /** The body of the inner loop. */
  function Shift(crc: bv16): bv16 {
    if TopBit(crc) then (crc << 1) ^ 0x1021 else crc << 1
  }

  lemma ShiftBranches(crc: bv16)
    ensures crc & 0x8000 != 0 ==> Shift(crc) == (crc << 1) ^ 0x1021
    ensures crc & 0x8000 == 0 ==> Shift(crc) == crc << 1
  {
  }

  function Shifts(crc: bv16, n: nat): bv16 {
    if n == 0 then crc else Shift(Shifts(crc, n - 1))
  }

  function HighHalf(b: byte): bv16 {
    (b as bv16) << 8
  }

  function FeedByte(crc: bv16, b: byte): bv16 {
    Shifts(Xor(crc, HighHalf(b)), 8)
  }

  function Crc(data: seq<byte>): bv16 {
    if data == [] then 0xFFFF else FeedByte(Crc(data[..|data| - 1]), data[|data| - 1])
  }

  /** The inner loop over the bits of one byte. */
  method ShiftEightTimes(start: bv16) returns (crc: bv16)
    ensures crc == Shifts(start, 8)
  {
    hide Shift;
    crc := start;
    for k := 0 to 8
      invariant crc == Shifts(start, k)
    {
      ShiftBranches(crc);
      if crc & 0x8000 != 0 {
        crc := (crc << 1) ^ 0x1021;
      } else {
        crc := crc << 1;
      }
    }
  }

  /** The loops compute the remainder of a polynomial division. */
  method ComputeHeaderCrc(data: seq<byte>) returns (crc: bv16)
    ensures crc == Crc(data)
    ensures crc == Remainder(NONDIRECT_INIT, Bits(data) + Padding(16))
  {
    crc := 0xFFFF;
    for i := 0 to |data|
      invariant crc == Crc(data[..i])
    {
      hide Shifts;
      assert data[..i + 1][..i] == data[..i];
      crc := crc ^ ((data[i] as bv16) << 8);
      crc := ShiftEightTimes(crc);
    }
    assert data[..|data|] == data;
    CrcIsRemainder(data);
  }

  // ----- The bits of a message -----

  function ShiftedLeft(b: byte, i: nat): byte
    requires i < 8
  {
    b << (i as bv4)
  }

  /** Bit `i` of a byte, counted from the most significant. */
  predicate BitOf(b: byte, i: nat)
    requires i < 8
  {
    ShiftedLeft(b, i) & 0x80 != 0
  }

  function ByteBits(b: byte): (bits: seq<bool>)
    ensures |bits| == 8
    ensures forall i :: 0 <= i < 8 ==> bits[i] == BitOf(b, i)
  {
    seq(8, i requires 0 <= i < 8 => BitOf(b, i))
  }

  function Bits(data: seq<byte>): (bits: seq<bool>)
    ensures |bits| == 8 * |data|
  {
    if data == [] then [] else Bits(data[..|data| - 1]) + ByteBits(data[|data| - 1])
  }

  function Padding(n: nat): (zeros: seq<bool>)
    ensures |zeros| == n
  {
    seq(n, _ => false)
  }

  // ----- Polynomial division -----

  function BitValue(bit: bool): bv16 {
    if bit then 1 else 0
  }

  /** Long division, one bit at a time: shift the next bit in, subtract the generator on overflow. */
  function DivideStep(r: bv16, bit: bool): bv16 {
    if TopBit(r) then ((r << 1) | BitValue(bit)) ^ 0x1021 else (r << 1) | BitValue(bit)
  }

  /** The remainder of the polynomial `r` followed by `bits`, modulo the generator. */
  function Remainder(r: bv16, bits: seq<bool>): bv16 {
    if bits == [] then r else DivideStep(Remainder(r, bits[..|bits| - 1]), bits[|bits| - 1])
  }

  /** Followed by 16 zero bits this leaves the remainder 0xFFFF, the register's initial value. */
  const NONDIRECT_INIT: bv16 := 0x84CF

  lemma {:induction false} RemainderAppend(r: bv16, a: seq<bool>, b: seq<bool>)
    ensures Remainder(r, a + b) == Remainder(Remainder(r, a), b)
  {
    hide DivideStep;
    if b == [] {
      assert a + b == a;
    } else {
      RemainderAppend(r, a, b[..|b| - 1]);
      assert (a + b)[..|a + b| - 1] == a + b[..|b| - 1];
    }
  }

  lemma DivideZero(r: bv16)
    ensures DivideStep(r, false) == Shift(r)
  {
    if TopBit(r) {
    } else {
    }
  }

  predicate AllZero(bits: seq<bool>) {
    forall i :: 0 <= i < |bits| ==> !bits[i]
  }

  lemma {:induction false} ZeroBitsShift(r: bv16, bits: seq<bool>)
    requires AllZero(bits)
    ensures Remainder(r, bits) == Shifts(r, |bits|)
  {
    hide DivideStep, Shift;
    if bits != [] {
      ZeroBitsShift(r, bits[..|bits| - 1]);
      DivideZero(Remainder(r, bits[..|bits| - 1]));
    }
  }

  // ----- The register step is linear and injective -----

  lemma ShiftLinearBoth(x: bv16, y: bv16)
    requires TopBit(x) && TopBit(y)
    ensures Shift(Xor(x, y)) == Xor(Shift(x), Shift(y))
  {
  }

  lemma ShiftLinearOne(x: bv16, y: bv16)
    requires TopBit(x) && !TopBit(y)
    ensures Shift(Xor(x, y)) == Xor(Shift(x), Shift(y))
  {
  }

  lemma ShiftLinearOther(x: bv16, y: bv16)
    requires !TopBit(x) && TopBit(y)
    ensures Shift(Xor(x, y)) == Xor(Shift(x), Shift(y))
  {
  }

  lemma ShiftLinearNone(x: bv16, y: bv16)
    requires !TopBit(x) && !TopBit(y)
    ensures Shift(Xor(x, y)) == Xor(Shift(x), Shift(y))
  {
  }

  lemma ShiftLinear(x: bv16, y: bv16)
    ensures Shift(Xor(x, y)) == Xor(Shift(x), Shift(y))
  {
    hide Shift, Xor, TopBit;
    if TopBit(x) {
      if TopBit(y) {
        ShiftLinearBoth(x, y);
      } else {
        ShiftLinearOne(x, y);
      }
    } else if TopBit(y) {
      ShiftLinearOther(x, y);
    } else {
      ShiftLinearNone(x, y);
    }
  }

  lemma {:induction false} ShiftsLinear(x: bv16, y: bv16, n: nat)
    ensures Shifts(Xor(x, y), n) == Xor(Shifts(x, n), Shifts(y, n))
  {
    hide Shift, Xor;
    if n > 0 {
      ShiftsLinear(x, y, n - 1);
      ShiftLinear(Shifts(x, n - 1), Shifts(y, n - 1));
    }
  }

  lemma {:induction false} ShiftsCompose(x: bv16, m: nat, n: nat)
    ensures Shifts(Shifts(x, m), n) == Shifts(x, m + n)
  {
    hide Shift;
    if n > 0 {
      ShiftsCompose(x, m, n - 1);
    }
  }

  lemma ShiftNonzero(x: bv16)
    requires x != 0
    ensures Shift(x) != 0
  {
  }

  lemma {:induction false} ShiftsNonzero(x: bv16, n: nat)
    requires x != 0
    ensures Shifts(x, n) != 0
  {
    hide Shift;
    if n > 0 {
      ShiftsNonzero(x, n - 1);
      ShiftNonzero(Shifts(x, n - 1));
    }
  }

  lemma ShiftZero()
    ensures Shift(0) == 0
  {
  }

  lemma {:induction false} ShiftsOfZero(n: nat)
    ensures Shifts(0, n) == 0
  {
    hide Shift;
    if n > 0 {
      ShiftsOfZero(n - 1);
      ShiftZero();
    }
  }

  // ----- Feeding bits instead of bytes -----

  /** One register step of the checksum on one message bit. */
  function FeedBit(crc: bv16, bit: bool): bv16 {
    if bit then Xor(Shift(crc), GENERATOR) else Shift(crc)
  }

  const GENERATOR: bv16 := 0x1021

  function FeedBits(crc: bv16, bits: seq<bool>): bv16 {
    if bits == [] then crc else FeedBit(FeedBits(crc, bits[..|bits| - 1]), bits[|bits| - 1])
  }

  lemma {:induction false} FeedBitsAppend(crc: bv16, a: seq<bool>, b: seq<bool>)
    ensures FeedBits(crc, a + b) == FeedBits(FeedBits(crc, a), b)
  {
    hide FeedBit;
    if b == [] {
      assert a + b == a;
    } else {
      FeedBitsAppend(crc, a, b[..|b| - 1]);
      assert (a + b)[..|a + b| - 1] == a + b[..|b| - 1];
    }
  }

  lemma HighHalfShift(b: byte)
    ensures b & 0x80 != 0 ==> Shift(HighHalf(b)) == Xor(HighHalf(b << 1), GENERATOR)
    ensures b & 0x80 == 0 ==> Shift(HighHalf(b)) == HighHalf(b << 1)
  {
  }

  /** A byte waiting in the high half gives up its top bit with every shift. */
  lemma OneBitOfByte(c: bv16, b: byte)
    ensures Shift(Xor(c, HighHalf(b))) == Xor(FeedBit(c, b & 0x80 != 0), HighHalf(b << 1))
  {
    hide Shift, Xor, HighHalf;
    ShiftLinear(c, HighHalf(b));
    HighHalfShift(b);
    XorLeft(Shift(c), HighHalf(b << 1), GENERATOR);
    XorRight(Shift(c), HighHalf(b << 1), GENERATOR);
  }

  lemma ShiftedLeftStep(b: byte, i: nat)
    requires i < 7
    ensures ShiftedLeft(b, 0) == b
    ensures ShiftedLeft(b, i) << 1 == ShiftedLeft(b, i + 1)
  {
    assert i == 0 || i == 1 || i == 2 || i == 3 || i == 4 || i == 5 || i == 6;
  }

  lemma LastShift(b: byte)
    ensures HighHalf(ShiftedLeft(b, 7) << 1) == 0
  {
  }

  lemma {:induction false} BitsOfByte(c: bv16, b: byte, n: nat)
    requires n < 8
    ensures Shifts(Xor(c, HighHalf(b)), n) == Xor(FeedBits(c, ByteBits(b)[..n]), HighHalf(ShiftedLeft(b, n)))
  {
    hide Shift, Xor, HighHalf, ShiftedLeft, FeedBit;
    ShiftedLeftStep(b, 0);
    if n > 0 {
      BitsOfByte(c, b, n - 1);
      var bits := ByteBits(b);
      assert bits[..n][..n - 1] == bits[..n - 1];
      assert bits[n - 1] == BitOf(b, n - 1);
      ShiftedLeftStep(b, n - 1);
      OneBitOfByte(FeedBits(c, bits[..n - 1]), ShiftedLeft(b, n - 1));
    }
  }

  lemma XorZero(x: bv16)
    ensures Xor(x, 0) == x && Xor(0, x) == x
  {
  }

  lemma XorSelf(x: bv16)
    ensures Xor(x, x) == 0
  {
  }

  /** Xoring a byte into the high half and shifting 8 times feeds its 8 bits, high bit first. */
  lemma FeedByteIsBits(c: bv16, b: byte)
    ensures FeedByte(c, b) == FeedBits(c, ByteBits(b))
  {
    hide Shift, Xor, HighHalf, ShiftedLeft, FeedBit;
    var bits := ByteBits(b);
    BitsOfByte(c, b, 7);
    OneBitOfByte(FeedBits(c, bits[..7]), ShiftedLeft(b, 7));
    LastShift(b);
    XorZero(FeedBit(FeedBits(c, bits[..7]), BitOf(b, 7)));
    assert bits[..8] == bits && bits[..8][..7] == bits[..7];
  }

  lemma {:induction false} CrcIsFeedBits(data: seq<byte>)
    ensures Crc(data) == FeedBits(0xFFFF, Bits(data))
  {
    hide FeedByte, FeedBit;
    if data != [] {
      var front, last := data[..|data| - 1], data[|data| - 1];
      CrcIsFeedBits(front);
      FeedByteIsBits(Crc(front), last);
      FeedBitsAppend(0xFFFF, Bits(front), ByteBits(last));
    }
  }

  // ----- The checksum is a remainder -----

  lemma DivideStepIsShift(r: bv16, bit: bool)
    ensures DivideStep(r, bit) == Xor(Shift(r), BitValue(bit))
  {
    if TopBit(r) {
      DivideStepTop(r, bit);
    } else {
      DivideStepNoTop(r, bit);
    }
  }

  lemma DivideStepTop(r: bv16, bit: bool)
    requires TopBit(r)
    ensures DivideStep(r, bit) == Xor(Shift(r), BitValue(bit))
  {
    if bit {
    } else {
    }
  }

  lemma DivideStepNoTop(r: bv16, bit: bool)
    requires !TopBit(r)
    ensures DivideStep(r, bit) == Xor(Shift(r), BitValue(bit))
  {
    if bit {
    } else {
    }
  }

  /** Eight shifts at once, for constants. */
  lemma ShiftsEight(x: bv16)
    ensures Shifts(x, 8) == Shift(Shift(Shift(Shift(Shift(Shift(Shift(Shift(x))))))))
  {
    hide Shift;
    assert Shifts(x, 1) == Shift(x);
    assert Shifts(x, 3) == Shift(Shift(Shifts(x, 1)));
    assert Shifts(x, 5) == Shift(Shift(Shifts(x, 3)));
    assert Shifts(x, 7) == Shift(Shift(Shifts(x, 5)));
  }

  /** x^16 leaves the generator's own low part. */
  lemma ShiftsOfOne()
    ensures Shifts(1, 16) == GENERATOR
  {
    ShiftsEight(1);
    ShiftsEight(0x100);
    ShiftsCompose(1, 8, 8);
  }

  lemma InitialRegister()
    ensures Shifts(NONDIRECT_INIT, 16) == 0xFFFF
  {
    ShiftsEight(NONDIRECT_INIT);
    ShiftsEight(Shifts(NONDIRECT_INIT, 8));
    ShiftsCompose(NONDIRECT_INIT, 8, 8);
  }

  lemma BitValueShifts(bit: bool)
    ensures Shifts(BitValue(bit), 16) == if bit then GENERATOR else 0
  {
    ShiftsOfOne();
    ShiftsOfZero(16);
  }

  /** The register is what 16 more zero bits would make of the running remainder. */
  lemma FeedBitIsDivideStep(r: bv16, bit: bool)
    ensures FeedBit(Shifts(r, 16), bit) == Shifts(DivideStep(r, bit), 16)
  {
    hide Shift, Xor, DivideStep, BitValue;
    DivideStepIsShift(r, bit);
    ShiftsLinear(Shift(r), BitValue(bit), 16);
    BitValueShifts(bit);
    ShiftsCompose(r, 1, 16);
    ShiftsCompose(r, 16, 1);
    assert Shifts(r, 1) == Shift(Shifts(r, 0));
    XorZero(Shifts(Shift(r), 16));
  }

  lemma {:induction false} FeedBitsIsRemainder(r: bv16, bits: seq<bool>)
    ensures FeedBits(Shifts(r, 16), bits) == Shifts(Remainder(r, bits), 16)
  {
    hide Shifts, FeedBit, DivideStep;
    if bits != [] {
      var front := bits[..|bits| - 1];
      FeedBitsIsRemainder(r, front);
      FeedBitIsDivideStep(Remainder(r, front), bits[|bits| - 1]);
    }
  }

  /** The checksum is the remainder of the data, behind a fixed prefix and before 16 zero bits. */
  lemma CrcIsRemainder(data: seq<byte>)
    ensures Crc(data) == Remainder(NONDIRECT_INIT, Bits(data) + Padding(16))
  {
    hide Shifts, FeedBits, Remainder, Crc, Bits;
    CrcIsFeedBits(data);
    InitialRegister();
    FeedBitsIsRemainder(NONDIRECT_INIT, Bits(data));
    RemainderAppend(NONDIRECT_INIT, Bits(data), Padding(16));
    ZeroBitsShift(Remainder(NONDIRECT_INIT, Bits(data)), Padding(16));
  }

  // ----- Error detection -----

  /** Where two bit strings differ. */
  function Diff(a: seq<bool>, b: seq<bool>): (d: seq<bool>)
    requires |a| == |b|
    ensures |d| == |a|
    ensures forall i :: 0 <= i < |a| ==> d[i] == (a[i] != b[i])
  {
    seq(|a|, i requires 0 <= i < |a| => a[i] != b[i])
  }

  lemma XorLeft(x: bv16, y: bv16, g: bv16)
    ensures Xor(Xor(x, g), y) == Xor(Xor(x, y), g)
  {
  }

  lemma XorRight(x: bv16, y: bv16, g: bv16)
    ensures Xor(x, Xor(y, g)) == Xor(Xor(x, y), g)
  {
  }

  lemma XorTwice(x: bv16, g: bv16)
    ensures Xor(Xor(x, g), g) == x
  {
    hide Xor;
    XorRight(x, g, g);
    XorSelf(g);
    XorZero(x);
  }

  lemma XorCancel(x: bv16, y: bv16, g: bv16)
    ensures Xor(Xor(x, g), Xor(y, g)) == Xor(x, y)
  {
    hide Xor;
    XorRight(Xor(x, g), y, g);
    XorLeft(x, y, g);
    XorTwice(Xor(x, y), g);
  }

  lemma XorZeroIffEqual(x: bv16, y: bv16)
    ensures Xor(x, y) == 0 <==> x == y
  {
    hide Xor;
    XorSelf(x);
    XorTwice(x, y);
    XorZero(y);
  }

  lemma FeedBitLinear(c: bv16, d: bv16, p: bool, q: bool)
    ensures Xor(FeedBit(c, p), FeedBit(d, q)) == FeedBit(Xor(c, d), p != q)
  {
    hide Shift, Xor;
    ShiftLinear(c, d);
    XorCancel(Shift(c), Shift(d), GENERATOR);
    XorLeft(Shift(c), Shift(d), GENERATOR);
    XorRight(Shift(c), Shift(d), GENERATOR);
  }

  lemma {:induction false} FeedBitsLinear(c: bv16, d: bv16, a: seq<bool>, b: seq<bool>)
    requires |a| == |b|
    ensures Xor(FeedBits(c, a), FeedBits(d, b)) == FeedBits(Xor(c, d), Diff(a, b))
  {
    hide Xor, FeedBit;
    if a != [] {
      var k := |a| - 1;
      FeedBitsLinear(c, d, a[..k], b[..k]);
      FeedBitLinear(FeedBits(c, a[..k]), FeedBits(d, b[..k]), a[k], b[k]);
      assert Diff(a, b)[..k] == Diff(a[..k], b[..k]);
    }
  }

  /** Exactly which corruptions stay unseen: those whose pattern the generator divides. */
  lemma UndetectedExactly(a: seq<byte>, b: seq<byte>)
    requires |a| == |b|
    ensures Crc(a) == Crc(b) <==> Remainder(0, Diff(Bits(a), Bits(b))) == 0
  {
    hide Xor, Shifts, FeedBits, Remainder, Crc, Bits, Diff;
    var d := Diff(Bits(a), Bits(b));
    CrcIsFeedBits(a);
    CrcIsFeedBits(b);
    FeedBitsLinear(0xFFFF, 0xFFFF, Bits(a), Bits(b));
    XorSelf(0xFFFF);
    XorZeroIffEqual(Crc(a), Crc(b));
    ShiftsOfZero(16);
    FeedBitsIsRemainder(0, d);
    if Remainder(0, d) != 0 {
      ShiftsNonzero(Remainder(0, d), 16);
    }
  }

  function BinaryValue(bits: seq<bool>): nat {
    if bits == [] then 0
    else 2 * BinaryValue(bits[..|bits| - 1]) + if bits[|bits| - 1] then 1 else 0
  }

  function Pow2(n: nat): nat {
    if n == 0 then 1 else 2 * Pow2(n - 1)
  }

  lemma {:induction false} BinaryValueBound(bits: seq<bool>)
    ensures BinaryValue(bits) < Pow2(|bits|)
    ensures BinaryValue(bits) == 0 ==> AllZero(bits)
  {
    if bits != [] {
      BinaryValueBound(bits[..|bits| - 1]);
    }
  }

  lemma {:induction false} Pow2Monotone(m: nat, n: nat)
    requires m <= n
    ensures Pow2(m) <= Pow2(n)
    decreases n - m
  {
    if m < n {
      Pow2Monotone(m + 1, n);
    }
  }

  lemma Pow2Fifteen()
    ensures Pow2(15) == 32768
  {
    assert Pow2(3) == 8;
    assert Pow2(6) == 64;
    assert Pow2(9) == 512;
    assert Pow2(12) == 4096;
  }

  lemma TopBitValue(r: bv16)
    ensures TopBit(r) <==> r as nat >= 32768
  {
  }

  lemma DoubleValue(r: bv16)
    requires !TopBit(r)
    ensures (r << 1) as nat == 2 * (r as nat)
    ensures (r << 1) | 0 == r << 1
  {
  }

  lemma DoubleOneValue(r: bv16)
    requires !TopBit(r)
    ensures ((r << 1) | 1) as nat == 2 * (r as nat) + 1
  {
  }

  lemma NoOverflow(r: bv16, bit: bool)
    requires r as nat < 32768
    ensures DivideStep(r, bit) as nat == 2 * (r as nat) + if bit then 1 else 0
  {
    TopBitValue(r);
    if bit {
      DoubleOneValue(r);
    } else {
      DoubleValue(r);
    }
  }

  /** At most 16 bits are their own remainder: the number they write. */
  lemma {:induction false} ShortRemainder(bits: seq<bool>)
    requires |bits| <= 16
    ensures Remainder(0, bits) as nat == BinaryValue(bits)
  {
    hide DivideStep;
    if bits != [] {
      var front, last := bits[..|bits| - 1], bits[|bits| - 1];
      ShortRemainder(front);
      BinaryValueBound(front);
      Pow2Monotone(|front|, 15);
      Pow2Fifteen();
      NoOverflow(Remainder(0, front), last);
    }
  }

  /** All differing bits lie within 16 consecutive positions from `p`. */
  ghost predicate BurstAt(d: seq<bool>, p: nat) {
    forall i :: 0 <= i < |d| && d[i] ==> p <= i < p + 16
  }

  lemma WindowRemainder(window: seq<bool>)
    requires |window| <= 16 && !AllZero(window)
    ensures Remainder(0, window) != 0
  {
    hide Remainder;
    ShortRemainder(window);
    BinaryValueBound(window);
  }

  lemma PaddedRemainder(before: seq<bool>, window: seq<bool>, after: seq<bool>)
    requires AllZero(before) && AllZero(after) && |window| <= 16 && !AllZero(window)
    ensures Remainder(0, before + (window + after)) != 0
  {
    hide Remainder, Shifts, AllZero;
    RemainderAppend(0, before, window + after);
    ZeroBitsShift(0, before);
    ShiftsOfZero(|before|);
    RemainderAppend(0, window, after);
    WindowRemainder(window);
    ZeroBitsShift(Remainder(0, window), after);
    ShiftsNonzero(Remainder(0, window), |after|);
  }

  lemma BurstRemainder(d: seq<bool>, p: nat)
    requires BurstAt(d, p) && !AllZero(d)
    ensures Remainder(0, d) != 0
  {
    hide Remainder;
    var i :| 0 <= i < |d| && d[i];
    var end := if p + 16 < |d| then p + 16 else |d|;
    var window := d[p..end];
    assert window[i - p];
    assert d == d[..p] + (window + d[end..]);
    PaddedRemainder(d[..p], window, d[end..]);
  }

  /** Every error burst of at most 16 consecutive bits, in messages of any length, is detected. */
  lemma BurstDetected(a: seq<byte>, b: seq<byte>, p: nat)
    requires |a| == |b| && BurstAt(Diff(Bits(a), Bits(b)), p) && Bits(a) != Bits(b)
    ensures Crc(a) != Crc(b)
  {
    hide Crc, Bits, Remainder;
    BurstRemainder(Diff(Bits(a), Bits(b)), p);
    UndetectedExactly(a, b);
  }

  // ----- In terms of bytes -----

  lemma {:induction false} BitsAt(data: seq<byte>, k: nat)
    requires k < |data|
    ensures Bits(data)[8 * k..8 * k + 8] == ByteBits(data[k])
  {
    hide BitOf;
    var n := |data| - 1;
    var front := Bits(data[..n]);
    if k < n {
      BitsAt(data[..n], k);
      assert Bits(data)[8 * k..8 * k + 8] == front[8 * k..8 * k + 8];
    }
  }

  lemma SameBitsSameByte(x: byte, y: byte)
    requires forall i :: 0 <= i < 8 ==> BitOf(x, i) == BitOf(y, i)
    ensures x == y
  {
    assert BitOf(x, 0) == BitOf(y, 0) && BitOf(x, 1) == BitOf(y, 1);
    assert BitOf(x, 2) == BitOf(y, 2) && BitOf(x, 3) == BitOf(y, 3);
    assert BitOf(x, 4) == BitOf(y, 4) && BitOf(x, 5) == BitOf(y, 5);
    assert BitOf(x, 6) == BitOf(y, 6) && BitOf(x, 7) == BitOf(y, 7);
  }

  lemma ByteBitsInjective(x: byte, y: byte)
    requires ByteBits(x) == ByteBits(y)
    ensures x == y
  {
    hide BitOf;
    forall i | 0 <= i < 8
      ensures BitOf(x, i) == BitOf(y, i)
    {
      assert ByteBits(x)[i] == ByteBits(y)[i];
    }
    SameBitsSameByte(x, y);
  }

  lemma DifferingBitInByte(a: seq<byte>, b: seq<byte>, i: nat)
    requires |a| == |b| && i < |Bits(a)| && Bits(a)[i] != Bits(b)[i]
    ensures a[i / 8] != b[i / 8]
  {
    hide Bits, ByteBits;
    var k := i / 8;
    BitsAt(a, k);
    BitsAt(b, k);
    assert Bits(a)[8 * k..8 * k + 8][i - 8 * k] == Bits(a)[i];
    assert Bits(b)[8 * k..8 * k + 8][i - 8 * k] == Bits(b)[i];
  }

  /** In particular, two headers that differ only within two adjacent bytes have different checksums. */
  lemma AdjacentBytesDetected(a: seq<byte>, b: seq<byte>, k: nat)
    requires |a| == |b| && a != b
    requires forall i :: 0 <= i < |a| && a[i] != b[i] ==> i == k || i == k + 1
    ensures Crc(a) != Crc(b)
  {
    hide Crc, Bits, ByteBits;
    var d := Diff(Bits(a), Bits(b));
    assert Bits(a) != Bits(b) by {
      var j :| 0 <= j < |a| && a[j] != b[j];
      BitsAt(a, j);
      BitsAt(b, j);
      if Bits(a) == Bits(b) {
        ByteBitsInjective(a[j], b[j]);
      }
    }
    forall i | 0 <= i < |d| && d[i]
      ensures 8 * k <= i < 8 * k + 16
    {
      DifferingBitInByte(a, b, i);
    }
    BurstDetected(a, b, 8 * k);
  }
}
