/** The NMEA 0183 checksum: the exclusive-or of the sentence body, written as two hexadecimal digits. */
module NmeaSum {
  import opened Bytes

  function XorOf(msg: seq<byte>): byte {
    if msg == [] then 0 else XorOf(msg[..|msg| - 1]) ^ msg[|msg| - 1]
  }

  /** Value of a hexadecimal digit in either case, or -1. */
  function Digit(c: byte): int {
    var v := Val(c);
    if 48 <= v <= 57 then v - 48
    else if 65 <= v <= 70 then v - 55
    else if 97 <= v <= 102 then v - 87
    else -1
  }

  /** The characters `strtol` skips before a number. */
  predicate IsSpace(c: byte) {
    c == 0x20 || 0x09 <= c <= 0x0d
  }

  /**
   `strtol(s, nullptr, 16)` on a string of two characters: a number may be two digits, one digit followed
   by something else, or one digit after a space or a sign; anything else reads as zero.
   */
  function Strtol(c0: byte, c1: byte): int {
    if Digit(c0) >= 0 then
      if Digit(c1) >= 0 then 16 * Digit(c0) + Digit(c1) else Digit(c0)
    else if Digit(c1) >= 0 then
      if IsSpace(c0) || c0 == '+' as byte then Digit(c1)
      else if c0 == '-' as byte then -Digit(c1)
      else 0
    else 0
  }

  /** The loop of `valid_checksum`. */
  method Calculate(buf: array<byte>, off: nat, end: nat) returns (crc: byte)
    requires off <= end <= buf.Length
    ensures crc == XorOf(buf[off..end])
  {
    crc := 0;
    for i := off to end
      invariant crc == XorOf(buf[off..i])
    {
      crc := crc ^ buf[i];
      assert buf[off..i + 1][..i - off] == buf[off..i];
    }
  }

  // ---------- what the exclusive-or is ----------

  lemma {:induction false} XorConcat(a: seq<byte>, b: seq<byte>)
    ensures XorOf(a + b) == XorOf(a) ^ XorOf(b)
  {
    if b == [] {
      assert a + b == a;
      XorNothing(XorOf(a));
    } else {
      var k := |b| - 1;
      assert (a + b)[..|a| + k] == a + b[..k];
      XorConcat(a, b[..k]);
      XorAssoc(XorOf(a), XorOf(b[..k]), b[k]);
    }
  }

  predicate Follows(sums: seq<byte>, msg: seq<byte>) {
    |sums| == |msg| + 1 && sums[0] == 0 && forall i :: 0 <= i < |msg| ==> sums[i + 1] == sums[i] ^ msg[i]
  }

  /** A sum for each byte, each following from the one before. */
  lemma {:induction false} Trail(sums: seq<byte>, msg: seq<byte>)
    requires Follows(sums, msg)
    ensures XorOf(msg) == sums[|msg|]
  {
    if msg != [] {
      Trail(sums[..|msg|], msg[..|msg| - 1]);
    }
  }

  lemma XorNothing(a: byte)
    ensures a ^ 0 == a && 0 ^ a == a
  {
  }

  lemma XorAssoc(a: byte, b: byte, c: byte)
    ensures (a ^ b) ^ c == a ^ (b ^ c)
  {
  }

  /** Bit `k` of a byte. */
  function BitOf(b: byte, k: nat): nat
    requires k < 8
  {
    if (b >> k) & 1 == 1 then 1 else 0
  }

  /** How many bytes have bit `k` set. */
  function Ones(msg: seq<byte>, k: nat): nat
    requires k < 8
  {
    if msg == [] then 0 else Ones(msg[..|msg| - 1], k) + BitOf(msg[|msg| - 1], k)
  }

  /** Each bit of the exclusive-or is the parity of that bit over the message. */
  lemma {:induction false} XorIsParity(msg: seq<byte>, k: nat)
    requires k < 8
    ensures BitOf(XorOf(msg), k) == Ones(msg, k) % 2
  {
    hide BitOf;
    if msg == [] {
      NoBits(k);
    } else {
      XorIsParity(msg[..|msg| - 1], k);
      XorBit(XorOf(msg[..|msg| - 1]), msg[|msg| - 1], k);
    }
  }

  lemma NoBits(k: nat)
    requires k < 8
    ensures BitOf(0, k) == 0
  {
  }

  lemma XorBit(a: byte, b: byte, k: nat)
    requires k < 8
    ensures BitOf(a ^ b, k) == (BitOf(a, k) + BitOf(b, k)) % 2
  {
    ShiftXor(a, b, k);
    LowXor(a >> k, b >> k);
  }

  lemma ShiftXor(a: byte, b: byte, k: nat)
    requires k < 8
    ensures (a ^ b) >> k == (a >> k) ^ (b >> k)
  {
  }

  lemma LowXor(a: byte, b: byte)
    ensures (a ^ b) & 1 == 1 <==> (a & 1 == 1) != (b & 1 == 1)
  {
  }

  // ---------- what `strtol` is ----------

  const LOWER := "0123456789abcdef"
  const UPPER := "0123456789ABCDEF"

  /** The digit that stands for a number below sixteen, as a sentence's sender writes it. */
  function HexChar(n: nat, upper: bool): (c: byte)
    requires n < 16
    ensures Digit(c) == n
  {
    hide Val, ToByte;
    ToByte((if upper then UPPER[n] else LOWER[n]) as int)
  }

  /** The digits are those of the two tables, each with its place as its value, and no other characters. */
  lemma DigitIs(c: byte, n: nat)
    requires n < 16
    ensures Digit(c) == n <==> Val(c) == LOWER[n] as int || Val(c) == UPPER[n] as int
  {
    hide Val;
  }

  lemma DigitBound(c: byte)
    ensures -1 <= Digit(c) < 16
  {
    hide Val;
  }

  /** A digit string in base 16, up to the first other character. */
  function Digits(s: seq<byte>, value: nat): nat {
    if s == [] || Digit(s[0]) < 0 then value else Digits(s[1..], 16 * value + Digit(s[0]))
  }

  /** The white space of C. */
  predicate Blank(c: byte) {
    c == 0x20 || c == 0x09 || c == 0x0a || c == 0x0b || c == 0x0c || c == 0x0d
  }

  /** What follows a sign: an optional "0x" in front of a digit, and the digits. */
  function Magnitude(s: seq<byte>): int {
    if |s| >= 3 && s[0] == 0x30 && (s[1] == 0x78 || s[1] == 0x58) && Digit(s[2]) >= 0 then Digits(s[2..], 0)
    else Digits(s, 0)
  }

  /** `strtol(s, nullptr, 16)` for a string of any length. */
  function StrtolOf(s: seq<byte>): int {
    if s == [] then 0
    else if Blank(s[0]) then StrtolOf(s[1..])
    else if s[0] == 0x2d then -Magnitude(s[1..])
    else if s[0] == 0x2b then Magnitude(s[1..])
    else Magnitude(s)
  }

  /** On the two characters of a checksum. */
  lemma StrtolIsStrtol(c0: byte, c1: byte)
    ensures Strtol(c0, c1) == StrtolOf([c0, c1])
  {
    hide Digit;
    NoDigit(c0);
    assert [c0, c1][1..] == [c1] && [c1][1..] == [];
    TwoDigits(c0, c1);
    OneDigit(c1);
    SpaceIsBlank(c0);
    if Blank(c0) {
      AnyOne(c1);
    }
  }

  lemma SpaceIsBlank(c: byte)
    ensures IsSpace(c) <==> Blank(c)
  {
  }

  lemma NoDigit(c: byte)
    ensures Blank(c) || c == 0x2d || c == 0x2b ==> Digit(c) < 0
  {
  }

  lemma OneDigit(c: byte)
    ensures Magnitude([c]) == if Digit(c) >= 0 then Digit(c) else 0
  {
    hide Digit;
    DigitBound(c);
    assert [c][1..] == [];
    assert [c][0] == c;
    EmptyDigits(Digit(c));
    EmptyDigits(0);
  }

  lemma LastDigit(c: byte, value: nat)
    ensures Digits([c], value) == if Digit(c) < 0 then value else 16 * value + Digit(c)
  {
    hide Digit;
    assert [c][1..] == [];
    if Digit(c) >= 0 {
      EmptyDigits(16 * value + Digit(c));
    }
  }

  lemma EmptyDigits(value: int)
    ensures value >= 0 ==> Digits([], value) == value
  {
  }

  lemma AnyOne(c: byte)
    ensures StrtolOf([c]) == if Digit(c) >= 0 then Digit(c) else 0
  {
    hide Digit, Magnitude;
    NoDigit(c);
    OneDigit(c);
    assert [c][1..] == [];
    assert Magnitude([]) == 0 by {
      NoMagnitude();
    }
  }

  lemma NoMagnitude()
    ensures Magnitude([]) == 0
  {
  }

  lemma TwoDigits(c0: byte, c1: byte)
    ensures Magnitude([c0, c1])
         == if Digit(c0) < 0 then 0 else if Digit(c1) < 0 then Digit(c0) else 16 * Digit(c0) + Digit(c1)
  {
    hide Digit;
    DigitBound(c0);
    DigitBound(c1);
    assert [c0, c1][1..] == [c1];
    LastDigit(c1, 0);
    if Digit(c0) >= 0 {
      LastDigit(c1, Digit(c0));
    }
  }

  /** Two digits in either case read as their number. */
  lemma StrtolReads(n: nat, upper0: bool, upper1: bool)
    requires n < 256
    ensures Strtol(HexChar(n / 16, upper0), HexChar(n % 16, upper1)) == n
  {
    hide Digit, HexChar;
  }
}
