/** The UBX checksum: two eight-bit accumulators, the second summing the first. */
module Fletcher {
  import opened Bytes

  // ---------- the program's form ----------

  /** `uint8_t` addition: the sum is taken in full and cut to eight bits when it is stored. */
  function Add(a: byte, b: byte): byte {
    ToByte((Val(a) + Val(b)) % 256)
  }

  /** Both accumulators after a message. */
  function Accumulate(msg: seq<byte>): (byte, byte) {
    if msg == [] then (0, 0)
    else
      var (crc1, crc2) := Accumulate(msg[..|msg| - 1]);
      var next := Add(crc1, msg[|msg| - 1]);
      (next, Add(crc2, next))
  }

  /** The loop of `valid_checksum`. */
  method Calculate(buf: array<byte>, off: nat, len: nat) returns (crc1: byte, crc2: byte)
    requires off + len <= buf.Length
    ensures crc1 == Accumulate(buf[off..off + len]).0 && crc2 == Accumulate(buf[off..off + len]).1
  {
    hide Add;
    crc1, crc2 := 0, 0;
    for i := off to off + len
      invariant crc1 == Accumulate(buf[off..i]).0 && crc2 == Accumulate(buf[off..i]).1
    {
      crc1 := Add(crc1, buf[i]);
      crc2 := Add(crc2, crc1);
      assert buf[off..i + 1][..i - off] == buf[off..i];
    }
  }

  // ---------- the closed form ----------

  function Sum(msg: seq<byte>): nat {
    if msg == [] then 0 else Sum(msg[..|msg| - 1]) + Val(msg[|msg| - 1])
  }

  /** The sum in which byte `i` counts `weight - i` times. */
  function WeightedSum(msg: seq<byte>, weight: int): int {
    if msg == [] then 0
    else WeightedSum(msg[..|msg| - 1], weight) + (weight - (|msg| - 1)) * Val(msg[|msg| - 1])
  }

  lemma {:induction false} Heavier(msg: seq<byte>, weight: int)
    ensures WeightedSum(msg, weight + 1) == WeightedSum(msg, weight) + Sum(msg)
  {
    if msg != [] {
      Heavier(msg[..|msg| - 1], weight);
    }
  }

  lemma WeightedLast(msg: seq<byte>)
    requires msg != []
    ensures WeightedSum(msg, |msg|) == WeightedSum(msg[..|msg| - 1], |msg| - 1) + Sum(msg)
  {
    hide Val;
    Heavier(msg[..|msg| - 1], |msg| - 1);
  }

  lemma ModShift(x: int, q: int)
    ensures (x - 256 * q) % 256 == x % 256
  {
  }

  lemma ModSum(a: nat, b: nat)
    ensures (a % 256 + b) % 256 == (a + b) % 256
    ensures (a % 256 + b % 256) % 256 == (a + b) % 256
  {
    ModShift(a + b, a / 256);
    ModShift(a + b, a / 256 + b / 256);
  }

  lemma AddVal(a: byte, b: byte)
    ensures Val(Add(a, b)) == (Val(a) + Val(b)) % 256
  {
    hide Val, ToByte;
  }

  /** For a message of n bytes: the byte sum, and the sum in which byte i counts n - i times, both mod 256. */
  lemma {:induction false} ClosedForm(msg: seq<byte>)
    ensures Val(Accumulate(msg).0) == Sum(msg) % 256
    ensures WeightedSum(msg, |msg|) >= 0
    ensures Val(Accumulate(msg).1) == WeightedSum(msg, |msg|) % 256
  {
    hide Val, Add, WeightedSum;
    if msg == [] {
      NoWeight();
      ZeroVal();
    } else {
      var init, last := msg[..|msg| - 1], msg[|msg| - 1];
      var (crc1, crc2) := Accumulate(init);
      ClosedForm(init);
      var next := Add(crc1, last);
      AddVal(crc1, last);
      AddVal(crc2, next);
      ModSum(Sum(init), Val(last));
      WeightedLast(msg);
      ModSum(WeightedSum(init, |init|), Sum(msg));
    }
  }

  lemma NoWeight()
    ensures WeightedSum([], 0) == 0
  {
  }

  lemma ZeroVal()
    ensures Val(0) == 0
  {
  }

  // ---------- what the checksum notices ----------

  lemma {:induction false} SumUpdate(msg: seq<byte>, i: nat, b: byte)
    requires i < |msg|
    ensures Sum(msg[i := b]) == Sum(msg) - Val(msg[i]) + Val(b)
  {
    var changed := msg[i := b];
    var k := |msg| - 1;
    if i < k {
      assert changed[..k] == msg[..k][i := b];
      SumUpdate(msg[..k], i, b);
    } else {
      assert changed[..k] == msg[..k];
    }
  }

  lemma Distribute(w: int, x: int, y: int)
    ensures w * (x - y) == w * x - w * y
  {
  }

  lemma {:induction false} WeightedUpdate(msg: seq<byte>, weight: int, i: nat, b: byte)
    requires i < |msg|
    ensures WeightedSum(msg[i := b], weight) == WeightedSum(msg, weight) + (weight - i) * (Val(b) - Val(msg[i]))
  {
    hide Val;
    var changed := msg[i := b];
    var k := |msg| - 1;
    if i < k {
      assert changed[..k] == msg[..k][i := b];
      WeightedUpdate(msg[..k], weight, i, b);
    } else {
      assert changed[..k] == msg[..k];
      Distribute(weight - k, Val(b), Val(msg[k]));
    }
  }

  lemma ValInjective(a: byte, b: byte)
    requires Val(a) == Val(b)
    ensures a == b
  {
  }

  lemma ModApart(a: int, b: int)
    requires a != b && -256 < a - b < 256
    ensures a % 256 != b % 256
  {
  }

  /** Changing one byte changes the first accumulator. */
  lemma ChangeNoticed(msg: seq<byte>, i: nat, b: byte)
    requires i < |msg| && b != msg[i]
    ensures Accumulate(msg[i := b]).0 != Accumulate(msg).0
  {
    hide Val, Accumulate, WeightedSum, Sum;
    SumUpdate(msg, i, b);
    ClosedForm(msg);
    ClosedForm(msg[i := b]);
    if Val(b) == Val(msg[i]) {
      ValInjective(b, msg[i]);
    }
    ModApart(Sum(msg), Sum(msg[i := b]));
  }

  /** Swapping two different neighbours keeps the first accumulator and changes the second. */
  lemma SwapNoticed(msg: seq<byte>, i: nat)
    requires i + 1 < |msg| && msg[i] != msg[i + 1]
    ensures Accumulate(msg[i := msg[i + 1]][i + 1 := msg[i]]).0 == Accumulate(msg).0
    ensures Accumulate(msg[i := msg[i + 1]][i + 1 := msg[i]]).1 != Accumulate(msg).1
  {
    hide Val, Accumulate, WeightedSum, Sum;
    var x, y := msg[i], msg[i + 1];
    var once := msg[i := y];
    var twice := once[i + 1 := x];
    SumUpdate(msg, i, y);
    SumUpdate(once, i + 1, x);
    WeightedUpdate(msg, |msg|, i, y);
    WeightedUpdate(once, |msg|, i + 1, x);
    ClosedForm(msg);
    ClosedForm(twice);
    if Val(x) == Val(y) {
      ValInjective(x, y);
    }
    ValInjectiveOrApart(Accumulate(twice).0, Accumulate(msg).0);
    var n := |msg|;
    Neighbours(n - i, Val(x), Val(y));
    ModApart(WeightedSum(msg, n), WeightedSum(twice, n));
  }

  lemma Neighbours(w: int, x: int, y: int)
    ensures w * (y - x) + (w - 1) * (x - y) == y - x
  {
  }

  lemma ValInjectiveOrApart(a: byte, b: byte)
    ensures Val(a) == Val(b) <==> a == b
  {
    if Val(a) == Val(b) {
      ValInjective(a, b);
    }
  }
}
