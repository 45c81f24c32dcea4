/**
 CRC-24Q, the checksum of RTCM 10403.x (chapter 4, "Transport Layer"). The program folds a byte into a
 24-bit register with eight shifts. This module has that form, its linearity and what it detects;
 `Crc24Division` has the reference definition, long division of the message polynomial by 0x1864CFB.
 */
module Crc24Q {
  import opened Bytes

  const POLYNOMIAL: bv32 := 0x1864CFB
  const TOP: bv32 := 0x1000000

  // ---------- the program's form ----------

  /** One turn of the inner loop of `crc24`. */
  function ShiftOne(c: bv32): bv32 {
    if (c << 1) & TOP != 0 then (c << 1) ^ POLYNOMIAL else c << 1
  }

  function ShiftMany(c: bv32, steps: nat): bv32
    decreases steps
  {
    if steps == 0 then c else ShiftOne(ShiftMany(c, steps - 1))
  }

  /** The start of `crct`: an index that is eight bits wide, moved to the top of the word. */
  function Top(crc: bv32, data: byte): bv32 {
    var idx := ((crc >> 16) & 0xff) as byte ^ data;
    (idx as bv32) << 16
  }

  function Mix(crc: bv32, crct: bv32): bv32 {
    ((crc << 8) & 0xFFFFFF) ^ crct
  }

  /** One turn of the outer loop of `crc24`. */
  function AddByte(crc: bv32, data: byte): bv32 {
    Mix(crc, ShiftMany(Top(crc, data), 8))
  }

  function CrcFrom(crc: bv32, msg: seq<byte>): bv32 {
    if msg == [] then crc else AddByte(CrcFrom(crc, msg[..|msg| - 1]), msg[|msg| - 1])
  }

  /** The checksum of a message. */
  function Crc(msg: seq<byte>): bv32 {
    CrcFrom(0, msg)
  }

  /** `crc24`. */
  method Calculate(buf: array<byte>, off: nat, len: nat) returns (crc: bv32)
    requires off + len <= buf.Length
    ensures crc == Crc(buf[off..off + len])
  {
    hide ShiftOne, Top, Mix;
    crc := 0;
    for i := off to off + len
      invariant crc == Crc(buf[off..i])
    {
      var crct := Top(crc, buf[i]);
      for j := 0 to 8
        invariant crct == ShiftMany(Top(crc, buf[i]), j)
      {
        crct := ShiftOne(crct);
      }
      crc := Mix(crc, crct);
      assert buf[off..i + 1][..i - off] == buf[off..i];
    }
  }

  lemma {:induction false} CrcFromConcat(crc: bv32, a: seq<byte>, b: seq<byte>)
    ensures CrcFrom(crc, a + b) == CrcFrom(CrcFrom(crc, a), b)
  {
    hide AddByte;
    if b == [] {
      assert a + b == a;
    } else {
      CrcFromConcat(crc, a, b[..|b| - 1]);
      assert (a + b)[..|a + b| - 1] == a + b[..|b| - 1];
    }
  }

  /** The three checksum bytes of a frame as a number, high byte first. */
  function Joined(b0: byte, b1: byte, b2: byte): bv32 {
    ((b0 as bv32) << 16) | ((b1 as bv32) << 8) | (b2 as bv32)
  }

  // ---------- the shift, as a linear map on 24-bit words ----------

  predicate IsWord(c: bv32) {
    c < TOP
  }

  function Xor(a: bv32, b: bv32): bv32 {
    a ^ b
  }

  function Double(c: bv32): bv32 {
    c << 1
  }

  /** The bit that a shift pushes out of the word. */
  function Carry(c: bv32): bv32 {
    (c >> 23) & 1
  }

  /** The polynomial, when a bit was pushed out. */
  function Reduction(t: bv32): bv32 {
    if t == 0 then 0 else POLYNOMIAL
  }

  /** `ShiftOne` as a sum of two linear parts. */
  function Step(c: bv32): bv32 {
    Xor(Double(c), Reduction(Carry(c)))
  }

  lemma CarryIsTop(c: bv32)
    ensures (c << 1) & TOP == Carry(c) << 24
  {
  }

  lemma CarryIsBit(c: bv32)
    ensures Carry(c) == 0 || Carry(c) == 1
  {
  }

  lemma XorNothing(c: bv32)
    ensures Xor(c, 0) == c
  {
  }

  lemma ShiftOneIsStep(c: bv32)
    ensures ShiftOne(c) == Step(c)
  {
    hide Carry;
    CarryIsTop(c);
    CarryIsBit(c);
    if Carry(c) == 0 {
      XorNothing(c << 1);
    }
  }

  lemma ReductionLinear(s: bv32, t: bv32)
    requires s == 0 || s == 1
    requires t == 0 || t == 1
    ensures Reduction(Xor(s, t)) == Xor(Reduction(s), Reduction(t))
  {
  }

  lemma CarryBits(a: bv32, b: bv32)
    ensures ((a ^ b) >> 23) & 1 == ((a >> 23) & 1) ^ ((b >> 23) & 1)
  {
  }

  lemma ShiftBits(a: bv32, b: bv32)
    ensures (a ^ b) << 1 == (a << 1) ^ (b << 1)
  {
  }

  lemma CarryLinear(a: bv32, b: bv32)
    ensures Carry(Xor(a, b)) == Xor(Carry(a), Carry(b))
  {
    CarryBits(a, b);
  }

  lemma DoubleLinear(a: bv32, b: bv32)
    ensures Double(Xor(a, b)) == Xor(Double(a), Double(b))
  {
    ShiftBits(a, b);
  }

  lemma XorAssoc(a: bv32, b: bv32, c: bv32)
    ensures Xor(Xor(a, b), c) == Xor(a, Xor(b, c))
  {
  }

  lemma XorComm(a: bv32, b: bv32)
    ensures Xor(a, b) == Xor(b, a)
  {
  }

  lemma XorSwap(a: bv32, b: bv32, c: bv32, d: bv32)
    ensures Xor(Xor(a, b), Xor(c, d)) == Xor(Xor(a, c), Xor(b, d))
  {
    hide Xor;
    XorAssoc(a, b, Xor(c, d));
    XorAssoc(b, c, d);
    XorComm(b, c);
    XorAssoc(c, b, d);
    XorAssoc(a, c, Xor(b, d));
  }

  lemma StepLinear(a: bv32, b: bv32)
    ensures Step(Xor(a, b)) == Xor(Step(a), Step(b))
  {
    hide Carry, Reduction, Double, Xor;
    CarryLinear(a, b);
    DoubleLinear(a, b);
    CarryIsBit(a);
    CarryIsBit(b);
    ReductionLinear(Carry(a), Carry(b));
    XorSwap(Double(a), Double(b), Reduction(Carry(a)), Reduction(Carry(b)));
  }

  lemma StepWord(c: bv32)
    requires IsWord(c)
    ensures IsWord(Step(c))
  {
  }

  lemma StepKernel(c: bv32)
    requires IsWord(c) && Step(c) == 0
    ensures c == 0
  {
  }

  // ---------- many shifts ----------

  lemma {:induction false} ShiftManyLinear(a: bv32, b: bv32, n: nat)
    ensures ShiftMany(Xor(a, b), n) == Xor(ShiftMany(a, n), ShiftMany(b, n))
  {
    hide ShiftOne, Step, Xor;
    if n > 0 {
      ShiftManyLinear(a, b, n - 1);
      var x, y := ShiftMany(a, n - 1), ShiftMany(b, n - 1);
      ShiftOneIsStep(x);
      ShiftOneIsStep(y);
      ShiftOneIsStep(Xor(x, y));
      StepLinear(x, y);
    }
  }

  lemma {:induction false} ShiftManyWord(c: bv32, n: nat)
    requires IsWord(c)
    ensures IsWord(ShiftMany(c, n))
  {
    hide ShiftOne, Step, IsWord;
    if n > 0 {
      ShiftManyWord(c, n - 1);
      ShiftOneIsStep(ShiftMany(c, n - 1));
      StepWord(ShiftMany(c, n - 1));
    }
  }

  lemma {:induction false} ShiftManyKernel(c: bv32, n: nat)
    requires IsWord(c) && ShiftMany(c, n) == 0
    ensures c == 0
  {
    hide ShiftOne, Step, IsWord;
    if n > 0 {
      var x := ShiftMany(c, n - 1);
      ShiftManyWord(c, n - 1);
      ShiftOneIsStep(x);
      StepKernel(x);
      ShiftManyKernel(c, n - 1);
    }
  }

  lemma {:induction false} ShiftManyAdd(c: bv32, m: nat, n: nat)
    ensures ShiftMany(c, m + n) == ShiftMany(ShiftMany(c, m), n)
  {
    hide ShiftOne;
    if n > 0 {
      ShiftManyAdd(c, m, n - 1);
    }
  }

  lemma XorWord(a: bv32, b: bv32)
    requires IsWord(a) && IsWord(b)
    ensures IsWord(Xor(a, b))
  {
  }

  lemma XorSelf(a: bv32)
    ensures a ^ a == 0
  {
  }

  lemma XorApart(a: bv32, b: bv32)
    requires a ^ b == 0
    ensures a == b
  {
  }

  lemma XorZero(a: bv32, b: bv32)
    ensures Xor(a, b) == 0 <==> a == b
  {
    if a == b {
      XorSelf(a);
    } else if Xor(a, b) == 0 {
      XorApart(a, b);
    }
  }

  /** The shift loses nothing: it is injective on words. */
  lemma ShiftManyInjective(a: bv32, b: bv32, n: nat)
    requires IsWord(a) && IsWord(b)
    requires ShiftMany(a, n) == ShiftMany(b, n)
    ensures a == b
  {
    hide IsWord, ShiftMany, Xor;
    XorWord(a, b);
    XorZero(ShiftMany(a, n), ShiftMany(b, n));
    ShiftManyLinear(a, b, n);
    ShiftManyKernel(Xor(a, b), n);
    XorZero(a, b);
  }

  // ---------- a byte is eight shifts ----------

  /** A byte at one of the three byte positions of a word. */
  function At(b: byte, position: nat): bv32
    requires position < 3
  {
    if position == 0 then b as bv32 else if position == 1 then (b as bv32) << 8 else (b as bv32) << 16
  }

  function DoubleMany(c: bv32, n: nat): bv32
    decreases n
  {
    if n == 0 then c else Double(DoubleMany(c, n - 1))
  }

  /** A word whose top bit is clear shifts without meeting the polynomial. */
  predicate NoCarry(c: bv32) {
    Double(c) & TOP == 0
  }

  lemma NoCarryDoubles(c: bv32)
    requires NoCarry(c)
    ensures ShiftOne(c) == Double(c)
  {
  }

  /** Sixteen bits leave room for eight shifts. */
  lemma RoomForEight(c: bv32, n: nat)
    requires c <= 0xffff && n < 8
    ensures NoCarry(DoubleMany(c, n))
  {
    hide Double, NoCarry;
    FirstFour(c);
    LastFour(c);
    var d1 := Double(c);
    var d2 := Double(d1);
    var d3 := Double(d2);
    assert DoubleMany(c, 3) == d3;
    var d4 := Double(d3);
    var d5 := Double(d4);
    assert DoubleMany(c, 5) == d5;
    var d6 := Double(d5);
    assert DoubleMany(c, 7) == Double(d6);
  }

  lemma FirstFour(c: bv32)
    requires c <= 0xffff
    ensures NoCarry(c) && NoCarry(Double(c)) && NoCarry(Double(Double(c))) && NoCarry(Double(Double(Double(c))))
  {
  }

  lemma LastFour(c: bv32)
    requires c <= 0xffff
    ensures NoCarry(Double(Double(Double(Double(c))))) && NoCarry(Double(Double(Double(Double(Double(c))))))
    ensures NoCarry(Double(Double(Double(Double(Double(Double(c)))))))
    ensures NoCarry(Double(Double(Double(Double(Double(Double(Double(c))))))))
  {
  }

  lemma {:induction false} SmallDoubles(c: bv32, n: nat)
    requires c <= 0xffff && n <= 8
    ensures ShiftMany(c, n) == DoubleMany(c, n)
  {
    hide ShiftOne, Double, NoCarry;
    if n > 0 {
      SmallDoubles(c, n - 1);
      RoomForEight(c, n - 1);
      NoCarryDoubles(DoubleMany(c, n - 1));
    }
  }

  lemma EightDoubles(c: bv32)
    ensures Double(Double(Double(Double(Double(Double(Double(Double(c)))))))) == c << 8
  {
  }

  /** Sixteen bits move up by a byte without meeting the polynomial. */
  lemma SmallShift(c: bv32)
    requires c <= 0xffff
    ensures ShiftMany(c, 8) == c << 8
  {
    hide ShiftMany, Double;
    EightDoubles(c);
    SmallDoubles(c, 8);
    assert DoubleMany(c, 2) == Double(Double(c));
    assert DoubleMany(c, 4) == Double(Double(DoubleMany(c, 2)));
    assert DoubleMany(c, 6) == Double(Double(DoubleMany(c, 4)));
  }

  lemma AtMovesUp(b: byte, position: nat)
    requires position < 2
    ensures ShiftMany(At(b, position), 8) == At(b, position + 1)
  {
    hide ShiftMany;
    assert (b as bv32) <= 0xffff && ((b as bv32) << 8) <= 0xffff;
    assert ((b as bv32) << 8) << 8 == (b as bv32) << 16;
    SmallShift(At(b, position));
  }

  lemma LowAndTopBits(crc: bv32, data: byte)
    ensures (crc & 0xffffff) ^ ((data as bv32) << 16)
         == (crc & 0xffff) ^ (((((crc >> 16) & 0xff) as byte ^ data) as bv32) << 16)
  {
  }

  lemma WordMask(crc: bv32)
    requires IsWord(crc)
    ensures crc & 0xffffff == crc
  {
  }

  lemma LowAndTop(crc: bv32, data: byte)
    requires IsWord(crc)
    ensures Xor(crc, At(data, 2)) == Xor(crc & 0xffff, Top(crc, data))
  {
    hide IsWord;
    WordMask(crc);
    LowAndTopBits(crc, data);
  }

  lemma MixIsXor(crc: bv32, crct: bv32)
    ensures Mix(crc, crct) == Xor((crc & 0xffff) << 8, crct)
  {
  }

  /** The program's table-free byte step: add the byte to the top of the register, then shift eight times. */
  lemma AddByteIsShifts(crc: bv32, data: byte)
    requires IsWord(crc)
    ensures AddByte(crc, data) == ShiftMany(Xor(crc, At(data, 2)), 8)
  {
    hide IsWord, ShiftMany, Xor, Mix, Top, At;
    LowAndTop(crc, data);
    ShiftManyLinear(crc & 0xffff, Top(crc, data), 8);
    SmallShift(crc & 0xffff);
    MixIsXor(crc, ShiftMany(Top(crc, data), 8));
  }

  lemma AtIsWord(b: byte, position: nat)
    requires position < 3
    ensures IsWord(At(b, position))
  {
  }

  lemma AddByteWord(crc: bv32, data: byte)
    requires IsWord(crc)
    ensures IsWord(AddByte(crc, data))
  {
    hide IsWord, ShiftMany, Xor, AddByte, At;
    AddByteIsShifts(crc, data);
    AtIsWord(data, 2);
    XorWord(crc, At(data, 2));
    ShiftManyWord(Xor(crc, At(data, 2)), 8);
  }

  /** The register never leaves 24 bits. */
  lemma {:induction false} CrcIsWord(crc: bv32, msg: seq<byte>)
    requires IsWord(crc)
    ensures IsWord(CrcFrom(crc, msg))
  {
    hide IsWord, AddByte;
    if msg != [] {
      CrcIsWord(crc, msg[..|msg| - 1]);
      AddByteWord(CrcFrom(crc, msg[..|msg| - 1]), msg[|msg| - 1]);
    }
  }

  // ---------- three bytes, the residue and bursts ----------

  /** Three bytes as one 24-bit word, first byte on top. */
  function Word(b0: byte, b1: byte, b2: byte): bv32 {
    Xor(Xor(At(b0, 2), At(b1, 1)), At(b2, 0))
  }

  lemma WordIsConcat(b0: byte, b1: byte, b2: byte)
    ensures Word(b0, b1, b2) == Joined(b0, b1, b2)
    ensures IsWord(Word(b0, b1, b2))
  {
  }

  lemma WordBytes(b0: byte, b1: byte, b2: byte)
    ensures var w := Joined(b0, b1, b2);
            ((w >> 16) & 0xff) as byte == b0 && ((w >> 8) & 0xff) as byte == b1 && (w & 0xff) as byte == b2
  {
  }

  lemma WordInjective(a0: byte, a1: byte, a2: byte, b0: byte, b1: byte, b2: byte)
    requires Word(a0, a1, a2) == Word(b0, b1, b2)
    ensures a0 == b0 && a1 == b1 && a2 == b2
  {
    hide Word, Joined;
    WordIsConcat(a0, a1, a2);
    WordIsConcat(b0, b1, b2);
    WordBytes(a0, a1, a2);
    WordBytes(b0, b1, b2);
  }

  /** Adding a byte after `n` shifts is adding it one position lower before them. */
  lemma AddLater(x: bv32, b: byte)
    requires IsWord(x)
    ensures AddByte(ShiftMany(x, 8), b) == ShiftMany(Xor(x, At(b, 1)), 16)
    ensures AddByte(ShiftMany(x, 16), b) == ShiftMany(Xor(x, At(b, 0)), 24)
  {
    hide IsWord, ShiftMany, Xor, AddByte, At;
    ShiftManyWord(x, 8);
    ShiftManyWord(x, 16);
    AddByteIsShifts(ShiftMany(x, 8), b);
    AddByteIsShifts(ShiftMany(x, 16), b);
    AtMovesUp(b, 0);
    AtMovesUp(b, 1);
    ShiftManyAdd(At(b, 0), 8, 8);
    ShiftManyLinear(x, At(b, 1), 8);
    ShiftManyLinear(x, At(b, 0), 16);
    ShiftManyAdd(Xor(x, At(b, 1)), 8, 8);
    ShiftManyAdd(Xor(x, At(b, 0)), 16, 8);
  }

  lemma ThreeBytes(crc: bv32, b0: byte, b1: byte, b2: byte)
    requires IsWord(crc)
    ensures CrcFrom(crc, [b0, b1, b2]) == ShiftMany(Xor(crc, Word(b0, b1, b2)), 24)
  {
    hide IsWord, ShiftMany, Xor, AddByte, At;
    assert [b0, b1, b2][..2] == [b0, b1] && [b0, b1][..1] == [b0] && [b0][..0] == [];
    assert CrcFrom(crc, [b0]) == AddByte(crc, b0);
    assert CrcFrom(crc, [b0, b1]) == AddByte(AddByte(crc, b0), b1);
    AtIsWord(b0, 2);
    AtIsWord(b1, 1);
    var x := Xor(crc, At(b0, 2));
    XorWord(crc, At(b0, 2));
    AddByteIsShifts(crc, b0);
    AddLater(x, b1);
    XorWord(x, At(b1, 1));
    AddLater(Xor(x, At(b1, 1)), b2);
    XorAssoc(crc, At(b0, 2), At(b1, 1));
    XorAssoc(crc, Xor(At(b0, 2), At(b1, 1)), At(b2, 0));
  }

  /** Running the checksum on over its own three bytes gives zero exactly when they are the checksum. */
  lemma Residue(crc: bv32, b0: byte, b1: byte, b2: byte)
    requires IsWord(crc)
    ensures CrcFrom(crc, [b0, b1, b2]) == 0 <==> crc == Joined(b0, b1, b2)
  {
    hide IsWord, ShiftMany, Xor, Word, CrcFrom, Joined;
    var w := Word(b0, b1, b2);
    WordIsConcat(b0, b1, b2);
    ThreeBytes(crc, b0, b1, b2);
    XorZero(crc, w);
    XorWord(crc, w);
    if CrcFrom(crc, [b0, b1, b2]) == 0 {
      ShiftManyKernel(Xor(crc, w), 24);
    } else if crc == w {
      ShiftManyZero(24);
    }
  }

  lemma {:induction false} ShiftManyZero(n: nat)
    ensures ShiftMany(0, n) == 0
  {
    if n > 0 {
      ShiftManyZero(n - 1);
    }
  }

  lemma XorCancel(c: bv32, a: bv32, b: bv32)
    ensures Xor(c, a) == Xor(c, b) <==> a == b
  {
  }

  lemma {:induction false} SameSuffix(x: bv32, y: bv32, msg: seq<byte>)
    requires IsWord(x) && IsWord(y)
    requires CrcFrom(x, msg) == CrcFrom(y, msg)
    ensures x == y
  {
    hide IsWord, ShiftMany, Xor, AddByte, At;
    if msg != [] {
      var init, last := msg[..|msg| - 1], msg[|msg| - 1];
      var u, v := CrcFrom(x, init), CrcFrom(y, init);
      CrcIsWord(x, init);
      CrcIsWord(y, init);
      AddByteIsShifts(u, last);
      AddByteIsShifts(v, last);
      AtIsWord(last, 2);
      XorWord(u, At(last, 2));
      XorWord(v, At(last, 2));
      ShiftManyInjective(Xor(u, At(last, 2)), Xor(v, At(last, 2)), 8);
      XorComm(u, At(last, 2));
      XorComm(v, At(last, 2));
      XorCancel(At(last, 2), u, v);
      SameSuffix(x, y, init);
    }
  }

  /**
   Burst detection: two different messages of one length that agree outside three consecutive bytes
   never have the same checksum, so at most one of them can have checksum zero.
   */
  lemma Burst(a: seq<byte>, b: seq<byte>, i: nat)
    requires |a| == |b| && i + 3 <= |a| && a != b
    requires a[..i] == b[..i] && a[i + 3..] == b[i + 3..]
    ensures Crc(a) != Crc(b)
  {
    hide IsWord, ShiftMany, Xor, Word, CrcFrom;
    var p, s := a[..i], a[i + 3..];
    var a3, b3 := [a[i], a[i + 1], a[i + 2]], [b[i], b[i + 1], b[i + 2]];
    assert a == p + (a3 + s) && b == p + (b3 + s);
    assert IsWord(0) by { ZeroWord(); }
    var c := CrcFrom(0, p);
    CrcIsWord(0, p);
    CrcFromConcat(0, p, a3 + s);
    CrcFromConcat(0, p, b3 + s);
    CrcFromConcat(c, a3, s);
    CrcFromConcat(c, b3, s);
    if Crc(a) == Crc(b) {
      CrcIsWord(c, a3);
      CrcIsWord(c, b3);
      SameSuffix(CrcFrom(c, a3), CrcFrom(c, b3), s);
      ThreeBytes(c, a[i], a[i + 1], a[i + 2]);
      ThreeBytes(c, b[i], b[i + 1], b[i + 2]);
      var v, w := Word(a[i], a[i + 1], a[i + 2]), Word(b[i], b[i + 1], b[i + 2]);
      WordIsConcat(a[i], a[i + 1], a[i + 2]);
      WordIsConcat(b[i], b[i + 1], b[i + 2]);
      XorWord(c, v);
      XorWord(c, w);
      ShiftManyInjective(Xor(c, v), Xor(c, w), 24);
      XorCancel(c, v, w);
      WordInjective(a[i], a[i + 1], a[i + 2], b[i], b[i + 1], b[i + 2]);
      assert false;
    }
  }

  lemma ZeroWord()
    ensures IsWord(0)
  {
  }

  // ---------- the check value ----------

  predicate Follows(regs: seq<bv32>, msg: seq<byte>) {
    |regs| == |msg| + 1 && forall i :: 0 <= i < |msg| ==> regs[i + 1] == AddByte(regs[i], msg[i])
  }

  /** A register for each byte, each following from the one before. */
  lemma {:induction false} Trail(regs: seq<bv32>, msg: seq<byte>)
    requires Follows(regs, msg)
    ensures CrcFrom(regs[0], msg) == regs[|msg|]
  {
    hide AddByte;
    if msg != [] {
      Trail(regs[..|msg|], msg[..|msg| - 1]);
    }
  }

  /** The published check value of CRC-24Q: what the characters "123456789" leave. */
  lemma CheckValue()
    ensures Crc([0x31, 0x32, 0x33, 0x34, 0x35, 0x36, 0x37, 0x38, 0x39]) == 0xCDE703
  {
    hide CrcFrom, AddByte;
    var msg: seq<byte> := [0x31, 0x32, 0x33, 0x34, 0x35, 0x36, 0x37, 0x38, 0x39];
    var regs: seq<bv32> :=
      [0, 0x4FD39B, 0xB78C91, 0x2C3045, 0x548AB0, 0x198EC0, 0xBCEFC7, 0x71986B, 0xA60510, 0xCDE703];
    CheckSteps();
    Trail(regs, msg);
  }

  lemma CheckSteps()
    ensures AddByte(0, 0x31) == 0x4FD39B && AddByte(0x4FD39B, 0x32) == 0xB78C91
    ensures AddByte(0xB78C91, 0x33) == 0x2C3045 && AddByte(0x2C3045, 0x34) == 0x548AB0
    ensures AddByte(0x548AB0, 0x35) == 0x198EC0 && AddByte(0x198EC0, 0x36) == 0xBCEFC7
    ensures AddByte(0xBCEFC7, 0x37) == 0x71986B && AddByte(0x71986B, 0x38) == 0xA60510
    ensures AddByte(0xA60510, 0x39) == 0xCDE703
  {
  }
}
