/**
 The X.25 checksum of MAVLink (CRC-16/MCRF4XX). The program folds a byte into the register with a few
 shifts; the reference definition here is the bit-serial shift register with the reflected
 polynomial 0x8408.
 */
module X25 {
  import opened Bytes

  const INIT_CRC: bv16 := 0xffff
  const POLYNOMIAL: bv16 := 0x8408

  // ---------- the program's form ----------

  /** One byte through `crc_accumulate`: `tmp` is eight bits wide, the register sixteen. */
  function Accumulate(crc: bv16, data: byte): bv16 {
    var tmp := data ^ ((crc & 0xff) as byte);
    var t := tmp ^ (tmp << 4);
    (crc >> 8) ^ ((t as bv16) << 8) ^ ((t as bv16) << 3) ^ ((t as bv16) >> 4)
  }

  /** The register after a message, started at `crc`. */
  function CrcFrom(crc: bv16, msg: seq<byte>): bv16 {
    if msg == [] then crc else Accumulate(CrcFrom(crc, msg[..|msg| - 1]), msg[|msg| - 1])
  }

  /** `crc_calculate`. */
  method Calculate(buf: array<byte>, off: nat, len: nat) returns (crc: bv16)
    requires off + len <= buf.Length
    ensures crc == CrcFrom(INIT_CRC, buf[off..off + len])
    ensures crc == SerialCrc(0xffff, buf[off..off + len])
  {
    hide Accumulate, SerialCrc;
    crc := INIT_CRC;
    for i := off to off + len
      invariant crc == CrcFrom(INIT_CRC, buf[off..i])
    {
      crc := Accumulate(crc, buf[i]);
      assert buf[off..i + 1][..i - off] == buf[off..i];
    }
    CrcIsBitSerial(0xffff, buf[off..off + len]);
  }

  lemma {:induction false} CrcFromConcat(crc: bv16, a: seq<byte>, b: seq<byte>)
    ensures CrcFrom(crc, a + b) == CrcFrom(CrcFrom(crc, a), b)
  {
    if b == [] {
      assert a + b == a;
    } else {
      CrcFromConcat(crc, a, b[..|b| - 1]);
      assert (a + b)[..|a + b| - 1] == a + b[..|b| - 1];
    }
  }

  // ---------- the reference: one bit at a time ----------

  /** One step of the shift register: drop the low bit and, when it was set, add the polynomial. */
  function ShiftOne(reg: bv16): bv16 {
    if reg & 1 == 1 then (reg >> 1) ^ POLYNOMIAL else reg >> 1
  }

  function ShiftMany(reg: bv16, steps: nat): bv16
    decreases steps
  {
    if steps == 0 then reg else ShiftMany(ShiftOne(reg), steps - 1)
  }

  /** The bit-serial CRC: add each byte to the low end of the register, then shift eight times. */
  function SerialCrc(reg: bv16, msg: seq<byte>): bv16 {
    if msg == [] then reg
    else ShiftMany(SerialCrc(reg, msg[..|msg| - 1]) ^ (msg[|msg| - 1] as bv16), 8)
  }

  // ---------- equivalence ----------

  /** `ShiftOne` without its branch: the outgoing bit is shifted to where the polynomial has ones. */
  function Step(c: bv16): bv16 {
    (c >> 1) ^ ((c & 1) << 15) ^ ((c & 1) << 10) ^ ((c & 1) << 3)
  }

  lemma StepWhenSet(c: bv16)
    requires c & 1 == 1
    ensures (c >> 1) ^ POLYNOMIAL == Step(c)
  {
  }

  lemma StepWhenClear(c: bv16)
    requires c & 1 != 1
    ensures c >> 1 == Step(c)
  {
    assert c & 1 == 0;
  }

  lemma ShiftOneIsStep(c: bv16)
    ensures ShiftOne(c) == Step(c)
  {
    if c & 1 == 1 {
      StepWhenSet(c);
    } else {
      StepWhenClear(c);
    }
  }

  /** Four steps at once: where the program's shifts by four come from. */
  function Nibble(c: bv16): bv16 {
    (c >> 4) ^ ((c & 0xf) << 12) ^ ((c & 0xf) << 7) ^ (c & 0xf)
  }

  lemma FourSteps(c: bv16)
    ensures Step(Step(Step(Step(c)))) == Nibble(c)
  {
  }

  lemma FourShifts(c: bv16, steps: nat)
    ensures ShiftMany(c, steps + 4) == ShiftMany(Nibble(c), steps)
  {
    hide ShiftOne, Step, Nibble;
    var c1 := ShiftOne(c);
    var c2 := ShiftOne(c1);
    var c3 := ShiftOne(c2);
    ShiftOneIsStep(c);
    ShiftOneIsStep(c1);
    ShiftOneIsStep(c2);
    ShiftOneIsStep(c3);
    FourSteps(c);
    assert ShiftMany(c, steps + 4) == ShiftMany(c1, steps + 3);
    assert ShiftMany(c1, steps + 3) == ShiftMany(c2, steps + 2);
    assert ShiftMany(c2, steps + 2) == ShiftMany(c3, steps + 1);
  }

  /** Both forms, split into the two half bytes `n` and `q` of the program's `tmp`. */
  function Joined(high: bv16, n: bv16, q: bv16): bv16 {
    high ^ (n << 8) ^ (n << 3) ^ (q << 12) ^ (q << 7) ^ q
  }

  lemma NibbleTwice(c: bv16)
    ensures Nibble(Nibble(c)) == Joined(c >> 8, c & 0xf, ((c >> 4) ^ c) & 0xf)
  {
  }

  lemma AccumulateJoined(crc: bv16, b: byte)
    ensures Accumulate(crc, b) == Joined((crc ^ (b as bv16)) >> 8, (crc ^ (b as bv16)) & 0xf,
                                         (((crc ^ (b as bv16)) >> 4) ^ (crc ^ (b as bv16))) & 0xf)
  {
  }

  /** One call of `crc_accumulate` is eight steps of the shift register. */
  lemma AccumulateIsBitSerial(crc: bv16, b: byte)
    ensures Accumulate(crc, b) == ShiftMany(crc ^ (b as bv16), 8)
  {
    hide Accumulate, Nibble, Joined;
    var c := crc ^ (b as bv16);
    FourShifts(c, 4);
    FourShifts(Nibble(c), 0);
    NibbleTwice(c);
    AccumulateJoined(crc, b);
  }

  /** The same for messages of any length and any starting register. */
  lemma {:induction false} CrcIsBitSerial(crc: bv16, msg: seq<byte>)
    ensures CrcFrom(crc, msg) == SerialCrc(crc, msg)
  {
    hide Accumulate, ShiftMany;
    if msg != [] {
      CrcIsBitSerial(crc, msg[..|msg| - 1]);
      AccumulateIsBitSerial(CrcFrom(crc, msg[..|msg| - 1]), msg[|msg| - 1]);
    }
  }

  /** A register for each byte, each following from the one before. */
  predicate Follows(regs: seq<bv16>, msg: seq<byte>) {
    |regs| == |msg| + 1 && forall i :: 0 <= i < |msg| ==> regs[i + 1] == Accumulate(regs[i], msg[i])
  }

  lemma {:induction false} Trail(regs: seq<bv16>, msg: seq<byte>)
    requires Follows(regs, msg)
    ensures CrcFrom(regs[0], msg) == regs[|msg|]
  {
    hide Accumulate;
    if msg != [] {
      Trail(regs[..|msg|], msg[..|msg| - 1]);
    }
  }

  /** The published check value of CRC-16/MCRF4XX: what the characters "123456789" leave. */
  lemma CheckValue()
    ensures SerialCrc(0xffff, [0x31, 0x32, 0x33, 0x34, 0x35, 0x36, 0x37, 0x38, 0x39]) == 0x6F91
  {
    hide CrcFrom, SerialCrc;
    var msg: seq<byte> := [0x31, 0x32, 0x33, 0x34, 0x35, 0x36, 0x37, 0x38, 0x39];
    var regs: seq<bv16> :=
      [0xffff, 0x2F8D, 0x4D53, 0x634B, 0x8B13, 0x44BF, 0x198D, 0x1AC8, 0xF795, 0x6F91];
    CheckSteps();
    Trail(regs, msg) by {
      hide Accumulate;
    }
    CrcIsBitSerial(0xffff, msg);
  }

  lemma CheckSteps()
    ensures Accumulate(0xffff, 0x31) == 0x2F8D && Accumulate(0x2F8D, 0x32) == 0x4D53
    ensures Accumulate(0x4D53, 0x33) == 0x634B && Accumulate(0x634B, 0x34) == 0x8B13
    ensures Accumulate(0x8B13, 0x35) == 0x44BF && Accumulate(0x44BF, 0x36) == 0x198D
    ensures Accumulate(0x198D, 0x37) == 0x1AC8 && Accumulate(0x1AC8, 0x38) == 0xF795
    ensures Accumulate(0xF795, 0x39) == 0x6F91
  {
  }

  // ---------- the residue ----------

  /** The two checksum bytes of a frame as a number, low byte first. */
  function Word(lo: byte, hi: byte): bv16 {
    (lo as bv16) + ((hi as bv16) << 8)
  }

  lemma AccumulateSelf(crc: bv16, lo: byte, hi: byte)
    requires crc == (lo as bv16) + ((hi as bv16) << 8)
    ensures Accumulate(Accumulate(crc, lo), hi) == 0
  {
  }

  lemma AccumulateZero(crc: bv16, b: byte)
    requires Accumulate(crc, b) == 0
    ensures crc == b as bv16
  {
  }

  lemma AccumulateByte(crc: bv16, lo: byte, hi: byte)
    requires Accumulate(crc, lo) == hi as bv16
    ensures crc == (lo as bv16) + ((hi as bv16) << 8)
  {
  }

  /** Feeding the two checksum bytes, low byte first, clears the register exactly when they match it. */
  lemma Residue(crc: bv16, lo: byte, hi: byte)
    ensures CrcFrom(crc, [lo, hi]) == 0 <==> crc == Word(lo, hi)
  {
    assert [lo, hi][..1] == [lo] && [lo][..0] == [];
    assert CrcFrom(crc, [lo]) == Accumulate(crc, lo);
    var c := Accumulate(crc, lo);
    if crc == (lo as bv16) + ((hi as bv16) << 8) {
      AccumulateSelf(crc, lo, hi);
    }
    if Accumulate(c, hi) == 0 {
      AccumulateZero(c, hi);
      AccumulateByte(crc, lo, hi);
    }
  }

  // ---------- bursts ----------

  function Xor(a: bv16, b: bv16): bv16 {
    a ^ b
  }

  lemma StepLinear(a: bv16, b: bv16)
    ensures Step(Xor(a, b)) == Xor(Step(a), Step(b))
  {
  }

  lemma {:induction false} ShiftManyLinear(a: bv16, b: bv16, steps: nat)
    ensures ShiftMany(Xor(a, b), steps) == Xor(ShiftMany(a, steps), ShiftMany(b, steps))
    decreases steps
  {
    hide Xor, Step, ShiftOne;
    if steps > 0 {
      ShiftOneIsStep(a);
      ShiftOneIsStep(b);
      ShiftOneIsStep(Xor(a, b));
      StepLinear(a, b);
      ShiftManyLinear(ShiftOne(a), ShiftOne(b), steps - 1);
    }
  }

  lemma Regroup(c: bv16, d: bv16, a: byte, b: byte)
    ensures Xor(c ^ (a as bv16), d ^ (b as bv16)) == Xor(c, d) ^ ((a ^ b) as bv16)
  {
  }

  /** Differences of registers and bytes go through `crc_accumulate` on their own. */
  lemma AccumulateLinear(c: bv16, d: bv16, a: byte, b: byte)
    ensures Xor(Accumulate(c, a), Accumulate(d, b)) == Accumulate(Xor(c, d), a ^ b)
  {
    hide Accumulate, ShiftMany, Xor;
    AccumulateIsBitSerial(c, a);
    AccumulateIsBitSerial(d, b);
    AccumulateIsBitSerial(Xor(c, d), a ^ b);
    ShiftManyLinear(c ^ (a as bv16), d ^ (b as bv16), 8);
    Regroup(c, d, a, b);
  }

  lemma XorBack(c: bv16, d: bv16)
    ensures Xor(Xor(c, d), d) == c
    ensures Xor(0, d) == d
    ensures Xor(c, c) == 0
  {
  }

  lemma XorComm(c: bv16, d: bv16)
    ensures Xor(c, d) == Xor(d, c)
  {
  }

  lemma XorZero(c: bv16, d: bv16)
    ensures Xor(c, d) == 0 <==> c == d
  {
    hide Xor;
    XorBack(c, d);
  }

  lemma ByteBack(a: byte, b: byte)
    ensures (a ^ b) ^ b == a
    ensures 0 ^ b == b
  {
  }

  lemma XorBytesApart(a: byte, b: byte)
    requires a ^ b == 0
    ensures a == b
  {
    ByteBack(a, b);
  }

  lemma SameByte(b: byte)
    ensures b ^ b == 0
  {
  }

  lemma WordZero(lo: byte, hi: byte)
    requires (lo as bv16) + ((hi as bv16) << 8) == 0
    ensures lo == 0 && hi == 0
  {
  }

  /** The differences of two messages of one length. */
  function XorOf(a: seq<byte>, b: seq<byte>): (d: seq<byte>)
    requires |a| == |b|
    ensures |d| == |a|
  {
    seq(|a|, i requires 0 <= i < |a| => a[i] ^ b[i])
  }

  /** For messages of any length: the register of the differences is the difference of the registers. */
  lemma {:induction false} CrcLinear(c: bv16, d: bv16, a: seq<byte>, b: seq<byte>)
    requires |a| == |b|
    ensures Xor(CrcFrom(c, a), CrcFrom(d, b)) == CrcFrom(Xor(c, d), XorOf(a, b))
  {
    hide Accumulate, Xor;
    if a != [] {
      var k := |a| - 1;
      CrcLinear(c, d, a[..k], b[..k]);
      AccumulateLinear(CrcFrom(c, a[..k]), CrcFrom(d, b[..k]), a[k], b[k]);
      XorOfLast(a, b);
    }
  }

  lemma XorOfLast(a: seq<byte>, b: seq<byte>)
    requires |a| == |b| > 0
    ensures var k := |a| - 1; XorOf(a, b)[..k] == XorOf(a[..k], b[..k]) && XorOf(a, b)[k] == a[k] ^ b[k]
  {
  }

  function Zeros(n: nat): (s: seq<byte>)
    ensures |s| == n
  {
    seq(n, _ => 0)
  }

  /** Zero bytes leave a zero register as it is, and no other becomes zero. */
  lemma {:induction false} ZeroBytes(c: bv16, n: nat)
    ensures CrcFrom(c, Zeros(n)) == 0 <==> c == 0
  {
    hide Accumulate;
    if n > 0 {
      ZeroBytes(c, n - 1);
      assert Zeros(n)[..n - 1] == Zeros(n - 1);
      var r := CrcFrom(c, Zeros(n - 1));
      ZeroByte();
      if Accumulate(r, 0) == 0 {
        AccumulateZero(r, 0);
      }
    }
  }

  lemma ZeroByte()
    ensures Accumulate(0, 0) == 0
  {
  }

  lemma AccumulateOwn(c: bv16, b: byte)
    ensures Accumulate(c, b) == 0 <==> c == b as bv16
  {
    if c == b as bv16 {
      OwnByte(b);
    } else if Accumulate(c, b) == 0 {
      hide Accumulate;
      AccumulateZero(c, b);
    }
  }

  lemma OwnByte(b: byte)
    ensures Accumulate(b as bv16, b) == 0
  {
  }

  /** One byte never merges two different registers. */
  lemma AccumulateInjective(c: bv16, d: bv16, b: byte)
    requires Accumulate(c, b) == Accumulate(d, b)
    ensures c == d
  {
    hide Accumulate, Xor;
    AccumulateLinear(c, d, b, b);
    SameByte(b);
    XorZero(Accumulate(c, b), Accumulate(d, b));
    AccumulateZero(Xor(c, d), 0);
    XorZero(c, d);
  }

  /** Nor do two bytes hide a difference between them. */
  lemma TwoBytesInjective(c: bv16, a0: byte, a1: byte, b0: byte, b1: byte)
    requires Accumulate(Accumulate(c, a0), a1) == Accumulate(Accumulate(c, b0), b1)
    ensures a0 == b0 && a1 == b1
  {
    hide Accumulate, Xor;
    AccumulateLinear(c, c, a0, b0);
    AccumulateLinear(Accumulate(c, a0), Accumulate(c, b0), a1, b1);
    XorZero(c, c);
    XorZero(Accumulate(Accumulate(c, a0), a1), Accumulate(Accumulate(c, b0), b1));
    AccumulateZero(Accumulate(0, a0 ^ b0), a1 ^ b1);
    AccumulateByte(0, a0 ^ b0, a1 ^ b1);
    WordZero(a0 ^ b0, a1 ^ b1);
    XorBytesApart(a0, b0);
    XorBytesApart(a1, b1);
  }

  lemma {:induction false} SameSuffix(x: bv16, y: bv16, msg: seq<byte>)
    requires CrcFrom(x, msg) == CrcFrom(y, msg)
    ensures x == y
  {
    hide Accumulate;
    if msg != [] {
      var init, last := msg[..|msg| - 1], msg[|msg| - 1];
      AccumulateInjective(CrcFrom(x, init), CrcFrom(y, init), last);
      SameSuffix(x, y, init);
    }
  }

  lemma TwoBytes(crc: bv16, b0: byte, b1: byte)
    ensures CrcFrom(crc, [b0, b1]) == Accumulate(Accumulate(crc, b0), b1)
  {
    hide Accumulate;
    assert [b0, b1][..1] == [b0] && [b0][..0] == [];
    assert CrcFrom(crc, [b0]) == Accumulate(crc, b0);
  }

  /** Different messages of one length that agree outside two consecutive bytes have different checksums. */
  lemma Burst(crc: bv16, a: seq<byte>, b: seq<byte>, i: nat)
    requires |a| == |b| && i + 2 <= |a| && a != b
    requires a[..i] == b[..i] && a[i + 2..] == b[i + 2..]
    ensures CrcFrom(crc, a) != CrcFrom(crc, b)
  {
    hide Accumulate, CrcFrom;
    var p, s := a[..i], a[i + 2..];
    var a2, b2 := [a[i], a[i + 1]], [b[i], b[i + 1]];
    assert a == p + (a2 + s) && b == p + (b2 + s);
    var c := CrcFrom(crc, p);
    CrcFromConcat(crc, p, a2 + s);
    CrcFromConcat(crc, p, b2 + s);
    CrcFromConcat(c, a2, s);
    CrcFromConcat(c, b2, s);
    if CrcFrom(crc, a) == CrcFrom(crc, b) {
      SameSuffix(CrcFrom(c, a2), CrcFrom(c, b2), s);
      TwoBytes(c, a[i], a[i + 1]);
      TwoBytes(c, b[i], b[i + 1]);
      TwoBytesInjective(c, a[i], a[i + 1], b[i], b[i + 1]);
    }
  }
}
