/**
 What CRC-24Q means: the remainder of the message polynomial, followed by 24 zero bits, under long
 division by 0x1864CFB over the two-element field. The division here works on the message bits in
 transmission order and knows nothing of bytes.
 */
module Crc24Division {
  import opened Bytes
  import opened Crc24Q

  function Append(rem: bv32, bit: bv1): bv32 {
    (rem << 1) | (bit as bv32)
  }

  predicate Reaches(d: bv32) {
    d & 0x1000000 != 0
  }

  /** One line of the long division: bring down a bit and subtract the divisor when it goes. */
  function BringDown(rem: bv32, bit: bv1): bv32 {
    var d := Append(rem, bit);
    if Reaches(d) then Xor(d, 0x1864CFB) else d
  }

  function DivideFrom(rem: bv32, bits: seq<bv1>): bv32 {
    if bits == [] then rem else BringDown(DivideFrom(rem, bits[..|bits| - 1]), bits[|bits| - 1])
  }

  /** The remainder of a bit string by the polynomial. */
  function Remainder(bits: seq<bv1>): bv32 {
    DivideFrom(0, bits)
  }

  function Bit(b: byte, k: nat): bv1
    requires k < 8
  {
    ((b >> k) & 1) as bv1
  }

  /** The bits of a message, each byte from its highest bit to its lowest. */
  function BitsOfByte(b: byte): (bits: seq<bv1>)
    ensures |bits| == 8
  {
    seq(8, i requires 0 <= i < 8 => Bit(b, 7 - i))
  }

  function BitsOf(msg: seq<byte>): seq<bv1> {
    if msg == [] then [] else BitsOf(msg[..|msg| - 1]) + BitsOfByte(msg[|msg| - 1])
  }

  function Zeros(n: nat): (bits: seq<bv1>)
    ensures |bits| == n
  {
    seq(n, _ => 0)
  }

  // ---------- a line of the division is a shift ----------

  function Wide(bit: bv1): bv32 {
    bit as bv32
  }

  lemma AppendBits(c: bv32, bit: bv1)
    ensures (c << 1) | (bit as bv32) == (c << 1) ^ (bit as bv32)
  {
  }

  lemma AppendIsXor(c: bv32, bit: bv1)
    ensures Append(c, bit) == Xor(Double(c), Wide(bit))
  {
    AppendBits(c, bit);
  }

  lemma AppendReaches(c: bv32, bit: bv1)
    ensures Reaches(Append(c, bit)) == Reaches(Double(c))
  {
    assert ((c << 1) | (bit as bv32)) & TOP == (c << 1) & TOP;
  }

  lemma ShiftOneReaches(c: bv32)
    ensures ShiftOne(c) == if Reaches(Double(c)) then Xor(Double(c), POLYNOMIAL) else Double(c)
  {
  }

  lemma BringDownIsShift(rem: bv32, bit: bv1)
    ensures BringDown(rem, bit) == Xor(ShiftOne(rem), Wide(bit))
  {
    hide Xor, Wide, Double, ShiftOne, Reaches, Append;
    AppendIsXor(rem, bit);
    AppendReaches(rem, bit);
    ShiftOneReaches(rem);
    XorAssoc(Double(rem), POLYNOMIAL, Wide(bit));
    XorAssoc(Double(rem), Wide(bit), POLYNOMIAL);
    XorComm(POLYNOMIAL, Wide(bit));
  }

  lemma {:induction false} DivideConcat(rem: bv32, a: seq<bv1>, b: seq<bv1>)
    ensures DivideFrom(rem, a + b) == DivideFrom(DivideFrom(rem, a), b)
  {
    hide BringDown;
    if b == [] {
      assert a + b == a;
    } else {
      DivideConcat(rem, a, b[..|b| - 1]);
      assert (a + b)[..|a + b| - 1] == a + b[..|b| - 1];
    }
  }

  /** What is in hand and what is brought down divide independently. */
  lemma {:induction false} DivideLinear(rem: bv32, bits: seq<bv1>)
    ensures DivideFrom(rem, bits) == Xor(ShiftMany(rem, |bits|), DivideFrom(0, bits))
  {
    hide BringDown, ShiftOne, Xor;
    if bits == [] {
      NothingAdded(rem);
    } else {
      var init, last := bits[..|bits| - 1], bits[|bits| - 1];
      DivideLinear(rem, init);
      var x, y := ShiftMany(rem, |init|), DivideFrom(0, init);
      BringDownIsShift(Xor(x, y), last);
      BringDownIsShift(y, last);
      ShiftManyLinear(x, y, 1);
      OneShift(x);
      OneShift(y);
      OneShift(Xor(x, y));
      XorAssoc(ShiftOne(x), ShiftOne(y), Wide(last));
    }
  }

  lemma NothingAdded(c: bv32)
    ensures Xor(c, 0) == c
    ensures Xor(0, c) == c
  {
  }

  lemma OneShift(c: bv32)
    ensures ShiftMany(c, 1) == ShiftOne(c)
  {
    hide ShiftOne;
  }

  // ---------- a byte is brought down unchanged ----------

  /** The upper bits of a byte, as a number. */
  function Upper(b: byte, k: nat): bv32
    requires k <= 8
  {
    (b >> k) as bv32
  }

  lemma BringDownUpper(b: byte, k: bv8)
    requires k < 8
    ensures (((b >> (k + 1)) as bv32) << 1) | (((b >> k) & 1) as bv1 as bv32) == (b >> k) as bv32
    ensures ((b >> k) as bv32) & TOP == 0
  {
  }

  lemma UpperStep(b: byte, k: nat)
    requires k < 8
    ensures BringDown(Upper(b, k + 1), Bit(b, k)) == Upper(b, k)
  {
    BringDownUpper(b, 0); BringDownUpper(b, 1); BringDownUpper(b, 2); BringDownUpper(b, 3);
    BringDownUpper(b, 4); BringDownUpper(b, 5); BringDownUpper(b, 6); BringDownUpper(b, 7);
  }

  lemma {:induction false} BringDownByte(b: byte, n: nat)
    requires n <= 8
    ensures Remainder(BitsOfByte(b)[..n]) == Upper(b, 8 - n)
  {
    hide BringDown, Bit, Upper;
    if n == 0 {
      UpperNone(b);
    } else {
      BringDownByte(b, n - 1);
      assert BitsOfByte(b)[..n][..n - 1] == BitsOfByte(b)[..n - 1];
      UpperStep(b, 8 - n);
    }
  }

  lemma UpperNone(b: byte)
    ensures Upper(b, 8) == 0
    ensures Upper(b, 0) == At(b, 0)
  {
  }

  lemma ByteRemainder(b: byte)
    ensures Remainder(BitsOfByte(b)) == At(b, 0)
  {
    hide Upper, At, DivideFrom;
    assert BitsOfByte(b)[..8] == BitsOfByte(b);
    BringDownByte(b, 8);
    UpperNone(b);
  }

  // ---------- the theorem ----------

  lemma {:induction false} ZerosShift(rem: bv32, n: nat)
    ensures DivideFrom(rem, Zeros(n)) == ShiftMany(rem, n)
  {
    hide BringDown, ShiftOne, Xor, Wide;
    if n > 0 {
      assert Zeros(n)[..n - 1] == Zeros(n - 1);
      ZerosShift(rem, n - 1);
      BringDownIsShift(ShiftMany(rem, n - 1), 0);
      NothingAdded(ShiftOne(ShiftMany(rem, n - 1)));
      WideZero();
    }
  }

  lemma WideZero()
    ensures Wide(0) == 0
  {
  }

  lemma {:induction false} RemainderWord(msg: seq<byte>)
    ensures IsWord(Remainder(BitsOf(msg)))
  {
    hide BringDown, IsWord, Xor, ShiftOne, At;
    if msg == [] {
      ZeroWord();
      assert BitsOf(msg) == [];
    } else {
      var r, last := Remainder(BitsOf(msg[..|msg| - 1])), msg[|msg| - 1];
      RemainderWord(msg[..|msg| - 1]);
      NextByte(msg);
      ShiftManyWord(r, 8);
      AtIsWord(last, 0);
      XorWord(ShiftMany(r, 8), At(last, 0));
    }
  }

  lemma NextByte(msg: seq<byte>)
    requires msg != []
    ensures Remainder(BitsOf(msg)) == Xor(ShiftMany(Remainder(BitsOf(msg[..|msg| - 1])), 8), At(msg[|msg| - 1], 0))
  {
    hide BringDown, Xor, ShiftMany, At;
    var init, last := msg[..|msg| - 1], msg[|msg| - 1];
    DivideConcat(0, BitsOf(init), BitsOfByte(last));
    DivideLinear(Remainder(BitsOf(init)), BitsOfByte(last));
    ByteRemainder(last);
  }

  /** The register is the remainder of the message so far, moved up by 24 places. */
  lemma {:induction false} CrcIsShiftedRemainder(msg: seq<byte>)
    ensures Crc(msg) == ShiftMany(Remainder(BitsOf(msg)), 24)
  {
    hide BringDown, IsWord, Xor, ShiftOne, ShiftMany, At, AddByte;
    if msg == [] {
      assert BitsOf(msg) == [];
      ShiftManyZero(24);
    } else {
      var init, last := msg[..|msg| - 1], msg[|msg| - 1];
      var r := Remainder(BitsOf(init));
      CrcIsShiftedRemainder(init);
      RemainderWord(init);
      NextByte(msg);
      // the register after the last byte
      ShiftManyWord(r, 24);
      AddByteIsShifts(ShiftMany(r, 24), last);
      // the remainder after the last byte, moved up
      var q := At(last, 0);
      ShiftManyLinear(ShiftMany(r, 8), q, 24);
      ShiftManyAdd(r, 8, 24);
      ShiftManyAdd(r, 24, 8);
      ShiftManyAdd(q, 16, 8);
      ShiftManyAdd(q, 8, 8);
      AtMovesUp(last, 0);
      AtMovesUp(last, 1);
      ShiftManyLinear(ShiftMany(r, 24), At(last, 2), 8);
    }
  }

  /** `crc24` computes the remainder of the message followed by 24 zero bits, and it fits 24 bits. */
  lemma CrcIsRemainder(msg: seq<byte>)
    ensures Crc(msg) == Remainder(BitsOf(msg) + Zeros(24))
    ensures Crc(msg) < 0x1000000
  {
    hide ShiftMany, DivideFrom;
    CrcIsShiftedRemainder(msg);
    DivideConcat(0, BitsOf(msg), Zeros(24));
    ZerosShift(Remainder(BitsOf(msg)), 24);
    ZeroWord();
    CrcIsWord(0, msg);
  }

  /** A message has checksum zero exactly when the polynomial divides it. */
  lemma ZeroIffDivisible(msg: seq<byte>)
    ensures Crc(msg) == 0 <==> Remainder(BitsOf(msg)) == 0
  {
    hide ShiftMany, DivideFrom, IsWord;
    CrcIsShiftedRemainder(msg);
    RemainderWord(msg);
    ShiftManyZero(24);
    if Crc(msg) == 0 {
      ShiftManyKernel(Remainder(BitsOf(msg)), 24);
    }
  }
}
