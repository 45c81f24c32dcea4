/** What a valid checksum means for a whole frame, and which corruptions no frame survives. */
module ChecksumLaws {
  import opened Bytes
  import opened Protocols
  import X25
  import Crc24Q
  import Crc24Division
  import Fletcher
  import NmeaSum

  /** The bytes a MAVLink checksum runs over: the frame without preamble, the extra byte, the checksum itself. */
  function MavlinkCovered(extra: Option<CrcTable>, f: seq<byte>): (s: seq<byte>)
    requires |f| >= 8
    ensures |s| == if extra.Some? then |f| else |f| - 1
  {
    f[1..|f| - 2] + (if extra.Some? then [extra.value[Val(f[5])]] else []) + f[|f| - 2..]
  }

  /** A MAVLink frame is valid exactly when running the register on over its checksum bytes clears it. */
  lemma MavlinkResidue(extra: Option<CrcTable>, f: seq<byte>)
    requires |f| >= 8
    ensures MavlinkChecks(extra, f) <==> X25.CrcFrom(X25.INIT_CRC, MavlinkCovered(extra, f)) == 0
    ensures MavlinkChecks(extra, f) <==> X25.SerialCrc(0xffff, MavlinkCovered(extra, f)) == 0
  {
    hide Val, X25.Word, X25.Accumulate, X25.SerialCrc;
    X25.CrcIsBitSerial(0xffff, MavlinkCovered(extra, f));
    var n := |f| - 2;
    var body, last := f[1..n], f[n..];
    assert last == [f[n], f[n + 1]];
    var crc := MavlinkCrc(extra, f);
    var x := if extra.Some? then [extra.value[Val(f[5])]] else [];
    X25.CrcFromConcat(X25.INIT_CRC, body + x, last);
    X25.CrcFromConcat(X25.INIT_CRC, body, x);
    assert X25.CrcFrom(X25.INIT_CRC, body + x) == crc by {
      if extra.Some? {
        assert x[..0] == [];
      }
    }
    X25.Residue(crc, f[n], f[n + 1]);
  }

  /** Where in the frame the byte at `m` of the covered bytes stands; the extra byte is the one before the last two. */
  lemma CoveredAt(extra: Option<CrcTable>, f: seq<byte>, m: nat)
    requires |f| >= 8 && m < |MavlinkCovered(extra, f)|
    ensures var a, n := MavlinkCovered(extra, f), |f| - 2;
            a[m] == if m < n - 1 || extra.None? then f[m + 1]
                    else if m == n - 1 then extra.value[Val(f[5])] else f[m]
  {
    hide Val;
  }

  /** Two frames that agree outside two consecutive bytes are covered by sequences that do, in other places. */
  lemma CoveredApart(extra: Option<CrcTable>, f: seq<byte>, g: seq<byte>, i: nat) returns (j: nat)
    requires |f| == |g| >= 8 && f != g && f[0] == g[0] && i + 2 <= |f|
    requires f[..i] == g[..i] && f[i + 2..] == g[i + 2..]
    requires extra.Some? ==> f[5] == g[5] && i + 3 != |f|
    ensures var a, b := MavlinkCovered(extra, f), MavlinkCovered(extra, g);
            && |a| == |b| && a != b && j + 2 <= |a|
            && a[..j] == b[..j] && a[j + 2..] == b[j + 2..]
  {
    hide Val, MavlinkCovered;
    var a, b := MavlinkCovered(extra, f), MavlinkCovered(extra, g);
    j := if i == 0 then 0 else if extra.Some? && |f| - 2 <= i then i else i - 1;
    forall k | 0 <= k < |f| && !(i <= k < i + 2) ensures f[k] == g[k] {
      Outside(f, g, i, k);
    }
    forall m | 0 <= m < |a| && !(j <= m < j + 2) ensures a[m] == b[m] {
      CoveredAt(extra, f, m);
      CoveredAt(extra, g, m);
    }
    var k :| 0 <= k < |f| && f[k] != g[k];
    var m := if extra.Some? && |f| - 2 <= k then k else k - 1;
    CoveredAt(extra, f, m);
    CoveredAt(extra, g, m);
  }

  lemma Outside(f: seq<byte>, g: seq<byte>, i: nat, k: nat)
    requires |f| == |g| && i + 2 <= |f| && k < |f| && !(i <= k < i + 2)
    requires f[..i] == g[..i] && f[i + 2..] == g[i + 2..]
    ensures f[k] == g[k]
  {
    if k < i {
      assert f[..i][k] == g[..i][k];
    } else {
      assert f[i + 2..][k - i - 2] == g[i + 2..][k - i - 2];
    }
  }

  /**
   Of two different MAVLink frames of one length that agree outside two consecutive bytes at most one is valid.
   With a table of extra bytes this is for changes that leave the message id alone and do not take in both the
   last payload byte and the first checksum byte, which the extra byte then keeps apart.
   */
  lemma MavlinkBurst(extra: Option<CrcTable>, f: seq<byte>, g: seq<byte>, i: nat)
    requires |f| == |g| >= 8 && i + 2 <= |f| && f != g
    requires f[..i] == g[..i] && f[i + 2..] == g[i + 2..]
    requires extra.Some? ==> f[5] == g[5] && i + 3 != |f|
    ensures !(Judge(Mavlink1(extra), f) == Frame(|f|) && Judge(Mavlink1(extra), g) == Frame(|f|))
  {
    hide MavlinkChecks, X25.CrcFrom, Val, MavlinkCovered;
    if Judge(Mavlink1(extra), f) == Frame(|f|) && Judge(Mavlink1(extra), g) == Frame(|f|) {
      assert f[..|f|] == f && g[..|f|] == g;
      MavlinkResidue(extra, f);
      MavlinkResidue(extra, g);
      var j := CoveredApart(extra, f, g, i);
      X25.Burst(X25.INIT_CRC, MavlinkCovered(extra, f), MavlinkCovered(extra, g), j);
    }
  }

  function Diff(a: byte, b: byte): byte {
    a ^ b
  }

  function Wide(b: byte): bv16 {
    b as bv16
  }

  /** What a change of a byte leaves in the register after one more byte. */
  function Trace(d: byte): bv16 {
    X25.Accumulate(X25.Accumulate(0, d), 0)
  }

  /** The one change that leaves its trace in the low byte only, and that trace. */
  const HIDDEN_CHANGE: byte := 0x91
  const HIDDEN_TRACE: byte := 0x85

  lemma OnlyHidden(d: byte, e: byte)
    ensures Trace(d) == Wide(e) <==> (d == 0 && e == 0) || (d == HIDDEN_CHANGE && e == HIDDEN_TRACE)
  {
  }

  lemma DiffBack(a: byte, b: byte)
    ensures Diff(a, Diff(a, b)) == b
    ensures Diff(a, 0) == a
  {
  }

  lemma DiffIs(a: byte, b: byte, d: byte)
    ensures Diff(a, b) == d <==> b == Diff(a, d)
    ensures Diff(a, 0) == a
  {
    hide Diff;
    DiffBack(a, b);
    DiffBack(a, d);
  }

  lemma WordDiff(lo: byte, hi: byte, low: byte)
    ensures X25.Xor(X25.Word(lo, hi), X25.Word(low, hi)) == Wide(Diff(lo, low))
  {
  }

  lemma XorMoves(a: bv16, b: bv16, c: bv16)
    ensures b == c <==> X25.Xor(a, b) == X25.Xor(a, c)
  {
    hide X25.Xor;
    X25.XorComm(a, b);
    X25.XorComm(a, c);
    X25.XorBack(b, a);
    X25.XorBack(c, a);
  }

  /** Two registers that differ in the last byte but one. */
  lemma LastButOne(c: bv16, a: byte, b: byte, x: byte)
    ensures X25.Xor(X25.Accumulate(X25.Accumulate(c, a), x), X25.Accumulate(X25.Accumulate(c, b), x))
         == Trace(Diff(a, b))
  {
    hide X25.Accumulate, X25.Xor;
    X25.AccumulateLinear(c, c, a, b);
    X25.XorZero(c, c);
    X25.AccumulateLinear(X25.Accumulate(c, a), X25.Accumulate(c, b), x, x);
    X25.SameByte(x);
  }

  /**
   Where the extra byte keeps two bytes apart, exactly one change goes unnoticed: of the frames that agree with
   a valid one outside the last payload byte and the first checksum byte, just one more is valid.
   */
  lemma MavlinkBoundary(table: CrcTable, f: seq<byte>, g: seq<byte>)
    requires |f| == |g| >= 9 && Judge(Mavlink1(Some(table)), f) == Frame(|f|)
    requires f[..|f| - 3] == g[..|f| - 3] && f[|f| - 1] == g[|f| - 1]
    ensures Judge(Mavlink1(Some(table)), g) == Frame(|f|)
       <==> f == g || (g[|f| - 3] == f[|f| - 3] ^ HIDDEN_CHANGE && g[|f| - 2] == f[|f| - 2] ^ HIDDEN_TRACE)
  {
    hide MavlinkChecks, Val, Trace, Wide, Diff;
    var n := |f| - 2;
    BoundaryJudge(table, f, g);
    BoundaryChecks(table, f, g);
    OnlyHidden(Diff(f[n - 1], g[n - 1]), Diff(f[n], g[n]));
    DiffIs(f[n - 1], g[n - 1], HIDDEN_CHANGE);
    DiffIs(f[n], g[n], HIDDEN_TRACE);
    DiffIs(f[n - 1], g[n - 1], 0);
    DiffIs(f[n], g[n], 0);
    DiffIsXor(f[n - 1], HIDDEN_CHANGE);
    DiffIsXor(f[n], HIDDEN_TRACE);
  }

  lemma DiffIsXor(a: byte, b: byte)
    ensures Diff(a, b) == a ^ b
  {
  }

  lemma BoundaryJudge(table: CrcTable, f: seq<byte>, g: seq<byte>)
    requires |f| == |g| >= 9 && Judge(Mavlink1(Some(table)), f) == Frame(|f|)
    requires f[..|f| - 3] == g[..|f| - 3] && f[|f| - 1] == g[|f| - 1]
    ensures MavlinkChecks(Some(table), f)
    ensures Judge(Mavlink1(Some(table)), g) == Frame(|f|) <==> MavlinkChecks(Some(table), g)
    ensures f == g <==> f[|f| - 3] == g[|f| - 3] && f[|f| - 2] == g[|f| - 2]
  {
    hide MavlinkChecks, Val;
    assert f[..|f|] == f && g[..|f|] == g;
    forall k | 0 <= k < |f| - 3 ensures f[k] == g[k] {
      assert f[..|f| - 3][k] == g[..|f| - 3][k];
    }
  }

  lemma BoundaryChecks(table: CrcTable, f: seq<byte>, g: seq<byte>)
    requires |f| == |g| >= 9 && MavlinkChecks(Some(table), f)
    requires f[..|f| - 3] == g[..|f| - 3] && f[|f| - 1] == g[|f| - 1]
    ensures var k := |f| - 3;
            MavlinkChecks(Some(table), g) <==> Trace(Diff(f[k], g[k])) == Wide(Diff(f[k + 1], g[k + 1]))
  {
    hide X25.CrcFrom, X25.Accumulate, X25.Word, X25.Xor, Val, Trace, Wide, Diff;
    var n := |f| - 2;
    assert f[..n - 1][5] == g[..n - 1][5];
    assert f[1..n - 1] == f[..n - 1][1..] && g[1..n - 1] == g[..n - 1][1..];
    BodyCrc(f, n);
    BodyCrc(g, n);
    LastButOne(X25.CrcFrom(X25.INIT_CRC, f[1..n - 1]), f[n - 1], g[n - 1], table[Val(f[5])]);
    WordDiff(f[n], f[n + 1], g[n]);
    XorMoves(X25.Word(f[n], f[n + 1]), X25.Word(g[n], g[n + 1]), MavlinkCrc(Some(table), g));
  }

  lemma BodyCrc(f: seq<byte>, n: nat)
    requires 2 < n <= |f|
    ensures X25.CrcFrom(X25.INIT_CRC, f[1..n]) == X25.Accumulate(X25.CrcFrom(X25.INIT_CRC, f[1..n - 1]), f[n - 1])
  {
    hide X25.Accumulate;
    assert f[1..n][..n - 2] == f[1..n - 1] && f[1..n][n - 2] == f[n - 1];
  }

  /**
   Which changes of a MAVLink frame go unnoticed, whatever they are: of two frames of one length, the first of
   them valid, the second is valid exactly when the differences of their covered bytes, the extra byte among
   them, leave a zero register zero.
   */
  lemma MavlinkDifference(extra: Option<CrcTable>, f: seq<byte>, g: seq<byte>)
    requires |f| == |g| >= 8 && f[0] == g[0] && f[1] == g[1] && Judge(Mavlink1(extra), f) == Frame(|f|)
    ensures Judge(Mavlink1(extra), g) == Frame(|f|)
       <==> X25.CrcFrom(0, X25.XorOf(MavlinkCovered(extra, f), MavlinkCovered(extra, g))) == 0
  {
    hide MavlinkChecks, MavlinkCovered, X25.SerialCrc, X25.CrcFrom, X25.Xor, X25.XorOf, Val;
    assert f[..|f|] == f && g[..|f|] == g;
    MavlinkResidue(extra, f);
    MavlinkResidue(extra, g);
    var a, b := MavlinkCovered(extra, f), MavlinkCovered(extra, g);
    var c, d := X25.CrcFrom(X25.INIT_CRC, a), X25.CrcFrom(X25.INIT_CRC, b);
    X25.CrcLinear(X25.INIT_CRC, X25.INIT_CRC, a, b);
    X25.XorZero(X25.INIT_CRC, X25.INIT_CRC);
    X25.XorZero(c, d);
  }

  /** What a change of the message id leaves in the register after the payload. */
  function IdTrace(d: byte, payload: nat): bv16 {
    X25.CrcFrom(X25.Accumulate(0, d), X25.Zeros(payload))
  }

  /** A difference in two bytes, zeros around them. */
  function TwoApart(k: nat, d: byte, n: nat, x: byte, m: nat): (s: seq<byte>)
    ensures |s| == k + n + m + 2
  {
    X25.Zeros(k) + [d] + X25.Zeros(n) + [x] + X25.Zeros(m)
  }

  lemma TwoApartAt(k: nat, d: byte, n: nat, x: byte, m: nat, i: nat)
    requires i < k + n + m + 2
    ensures TwoApart(k, d, n, x, m)[i] == if i == k then d else if i == k + n + 1 then x else 0
  {
  }

  /** The covered bytes of two frames that differ in the message id, and with it in the extra byte. */
  lemma IdDifferenceAt(table: CrcTable, f: seq<byte>, b: byte, m: nat)
    requires |f| >= 8 && m < |f|
    ensures var p, q := MavlinkCovered(Some(table), f), MavlinkCovered(Some(table), f[5 := b]);
            Diff(p[m], q[m]) == if m == 4 then Diff(f[5], b)
                                else if m == |f| - 3 then Diff(table[Val(f[5])], table[Val(b)]) else 0
  {
    hide Val, MavlinkCovered, Diff;
    CoveredAt(Some(table), f, m);
    CoveredAt(Some(table), f[5 := b], m);
    NoDiff(MavlinkCovered(Some(table), f)[m]);
  }

  lemma NoDiff(a: byte)
    ensures Diff(a, a) == 0
  {
  }

  lemma DiffAt(p: seq<byte>, q: seq<byte>, m: nat)
    requires m < |p| == |q|
    ensures X25.XorOf(p, q)[m] == Diff(p[m], q[m])
  {
  }

  lemma IdDifference(table: CrcTable, f: seq<byte>, b: byte)
    requires |f| >= 8
    ensures X25.XorOf(MavlinkCovered(Some(table), f), MavlinkCovered(Some(table), f[5 := b]))
         == TwoApart(4, Diff(f[5], b), |f| - 8, Diff(table[Val(f[5])], table[Val(b)]), 2)
  {
    hide Val, MavlinkCovered, TwoApart, Diff, X25.XorOf;
    var p, q := MavlinkCovered(Some(table), f), MavlinkCovered(Some(table), f[5 := b]);
    var s := X25.XorOf(p, q);
    var d, x := Diff(f[5], b), Diff(table[Val(f[5])], table[Val(b)]);
    var t := TwoApart(4, d, |f| - 8, x, 2);
    forall m | 0 <= m < |f| ensures s[m] == t[m] {
      DiffAt(p, q, m);
      TwoApartAt(4, d, |f| - 8, x, 2, m);
      IdDifferenceAt(table, f, b, m);
    }
  }

  /** The register after a difference in two bytes, zeros around them. */
  lemma TwoDifferences(k: nat, d: byte, n: nat, x: byte, m: nat)
    ensures X25.CrcFrom(0, TwoApart(k, d, n, x, m)) == 0 <==> IdTrace(d, n) == Wide(x)
  {
    hide X25.Accumulate, X25.Zeros;
    var head := X25.Zeros(k) + [d];
    var body := head + X25.Zeros(n);
    X25.ZeroBytes(0, k);
    assert head[..k] == X25.Zeros(k);
    assert X25.CrcFrom(0, head) == X25.Accumulate(0, d);
    X25.CrcFromConcat(0, head, X25.Zeros(n));
    assert (body + [x])[..|body|] == body;
    X25.AccumulateOwn(X25.CrcFrom(0, body), x);
    X25.CrcFromConcat(0, body + [x], X25.Zeros(m));
    X25.ZeroBytes(X25.CrcFrom(0, body + [x]), m);
  }

  /**
   A changed message id goes unnoticed exactly when its trace after the payload is the difference of the two
   entries of the table.
   */
  lemma MavlinkIdChange(table: CrcTable, f: seq<byte>, b: byte)
    requires |f| >= 8 && Judge(Mavlink1(Some(table)), f) == Frame(|f|)
    ensures Judge(Mavlink1(Some(table)), f[5 := b]) == Frame(|f|)
       <==> IdTrace(f[5] ^ b, |f| - 8) == Wide(table[Val(f[5])] ^ table[Val(b)])
  {
    hide Judge, X25.CrcFrom, X25.Accumulate, X25.XorOf, MavlinkCovered, Val, Wide, IdTrace;
    var d, x := Diff(f[5], b), Diff(table[Val(f[5])], table[Val(b)]);
    MavlinkDifference(Some(table), f, f[5 := b]);
    IdDifference(table, f, b);
    TwoDifferences(4, d, |f| - 8, x, 2);
  }

  /** An RTCM frame is valid exactly when the checksum of all of it is zero: when 0x1864CFB divides it. */
  lemma RtcmResidue(f: seq<byte>)
    requires |f| >= 6
    ensures RtcmChecks(f) <==> Crc24Q.Crc(f) == 0
    ensures RtcmChecks(f) <==> Crc24Division.Remainder(Crc24Division.BitsOf(f)) == 0
  {
    hide Crc24Q.CrcFrom, Crc24Q.Joined, Crc24Q.IsWord, Crc24Division.DivideFrom;
    var n := |f| - 3;
    var last := [f[n], f[n + 1], f[n + 2]];
    assert f == f[..n] + last;
    Crc24Q.CrcFromConcat(0, f[..n], last);
    Crc24Q.ZeroWord();
    Crc24Q.CrcIsWord(0, f[..n]);
    Crc24Q.Residue(Crc24Q.Crc(f[..n]), f[n], f[n + 1], f[n + 2]);
    Crc24Division.ZeroIffDivisible(f);
  }

  /** Of two different RTCM frames of one length that agree outside three consecutive bytes at most one is valid. */
  lemma RtcmBurst(f: seq<byte>, g: seq<byte>, i: nat)
    requires |f| == |g| >= 6 && i + 3 <= |f| && f != g
    requires f[..i] == g[..i] && f[i + 3..] == g[i + 3..]
    ensures !(RtcmChecks(f) && RtcmChecks(g))
  {
    hide RtcmChecks, Crc24Q.CrcFrom;
    RtcmResidue(f);
    RtcmResidue(g);
    Crc24Q.Burst(f, g, i);
  }

  /** A change of the length bytes moves the end of the frame. */
  lemma OtherLength(f: seq<byte>, g: seq<byte>)
    requires f != [] && Judge(Ubx, f) == Frame(|f|) && |g| == |f|
    requires (g[4], g[5]) != (f[4], f[5])
    ensures Judge(Ubx, g) != Frame(|f|)
  {
    hide Val, Checks;
    if UbxPayload(g[4], g[5]) == UbxPayload(f[4], f[5]) {
      SameLength(g[4], g[5], f[4], f[5]);
      assert false;
    }
  }

  lemma SameLength(a: byte, b: byte, c: byte, d: byte)
    requires UbxPayload(a, b) == UbxPayload(c, d)
    ensures (a, b) == (c, d)
  {
    hide Val;
    assert Val(a) == Val(c) && Val(b) == Val(d);
    Fletcher.ValInjective(a, c);
    Fletcher.ValInjective(b, d);
  }

  /**
   A valid UBX frame with any one byte changed is no longer a valid frame; when neither the preamble nor the
   length was changed, it is a complete candidate with a bad checksum.
   */
  lemma UbxChange(f: seq<byte>, i: nat, b: byte)
    requires f != [] && Judge(Ubx, f) == Frame(|f|)
    requires i < |f| && b != f[i]
    ensures Judge(Ubx, f[i := b]) != Frame(|f|)
    ensures 2 <= i && i != 4 && i != 5 ==> Judge(Ubx, f[i := b]) == Bad(|f|)
  {
    hide UbxPayload, Fletcher.Accumulate;
    var g := f[i := b];
    var n := |f| - 2;
    assert f[..|f|] == f && g[..|f|] == g;
    if i == 4 || i == 5 {
      OtherLength(f, g);
    } else if 2 <= i < n {
      assert g[2..n] == f[2..n][i - 2 := b];
      Fletcher.ChangeNoticed(f[2..n], i - 2, b);
    } else if n <= i {
      assert g[2..n] == f[2..n];
    }
  }

  /** Nor does it survive the swap of two different neighbours among the bytes its checksum covers. */
  lemma UbxSwap(f: seq<byte>, i: nat)
    requires f != [] && Judge(Ubx, f) == Frame(|f|)
    requires 2 <= i && i + 1 < |f| - 2 && f[i] != f[i + 1]
    ensures var g := f[i := f[i + 1]][i + 1 := f[i]];
            && Judge(Ubx, g) != Frame(|f|)
            && (i !in {3, 4, 5} ==> Judge(Ubx, g) == Bad(|f|))
  {
    hide UbxPayload, Fletcher.Accumulate;
    var g := f[i := f[i + 1]][i + 1 := f[i]];
    var n := |f| - 2;
    assert f[..|f|] == f && g[..|f|] == g;
    if 3 <= i <= 5 {
      OtherLength(f, g);
    } else {
      assert g[2..n] == f[2..n][i - 2 := f[2..n][i - 1]][i - 1 := f[2..n][i - 2]];
      Fletcher.SwapNoticed(f[2..n], i - 2);
    }
  }

  // ---------- NMEA 0183 ----------

  /** A valid sentence ends with `*`, two digits, CR and LF, and has no other CR. */
  lemma SentenceShape(f: seq<byte>)
    requires f != [] && Judge(Nmea0183, f) == Frame(|f|)
    ensures |f| >= 6 && f[0] == Nmea0183.Preamble() && IndexOf(f, CR) == |f| - 2 <= NMEA_ROOM && f[|f| - 1] == LF
    ensures NmeaChecks(f)
  {
    hide NmeaChecks, IndexOf;
    assert f[..|f|] == f;
    ShortFails(f);
  }

  lemma ShortFails(f: seq<byte>)
    ensures NmeaChecks(f) ==> |f| >= 6
  {
  }

  lemma XorOther(x: byte, a: byte, b: byte)
    requires a != b
    ensures x ^ a != x ^ b && a ^ x != b ^ x
  {
    X25.ByteBack(a, x);
    X25.ByteBack(b, x);
    SwapXor(a, x);
    SwapXor(b, x);
  }

  lemma SwapXor(a: byte, b: byte)
    ensures a ^ b == b ^ a
  {
  }

  /** A changed byte changes the exclusive-or. */
  lemma {:induction false} XorNotices(msg: seq<byte>, i: nat, b: byte)
    requires i < |msg| && b != msg[i]
    ensures NmeaSum.XorOf(msg[i := b]) != NmeaSum.XorOf(msg)
  {
    var k := |msg| - 1;
    var g := msg[i := b];
    if i == k {
      assert g[..k] == msg[..k];
      XorOther(NmeaSum.XorOf(msg[..k]), msg[k], b);
    } else {
      assert g[..k] == msg[..k][i := b];
      XorNotices(msg[..k], i, b);
      XorOther(msg[k], NmeaSum.XorOf(g[..k]), NmeaSum.XorOf(msg[..k]));
    }
  }

  /** As long as no byte becomes CR and the line end stays, the sentence ends where it did. */
  lemma SameLine(f: seq<byte>, i: nat, b: byte)
    requires f != [] && Judge(Nmea0183, f) == Frame(|f|)
    requires 0 < i < |f| - 2 && b != CR
    ensures var g := f[i := b]; Judge(Nmea0183, g) == if NmeaChecks(g) then Frame(|g|) else Bad(|g|)
  {
    hide NmeaChecks, IndexOf;
    SentenceShape(f);
    var g := f[i := b];
    IndexOfIs(g, CR, |f| - 2);
    JudgeWhole(Nmea0183, g);
  }

  /** A change of the `$` or of the line end, or a new CR, moves the end of the sentence or leaves none. */
  lemma OtherLine(f: seq<byte>, i: nat, b: byte)
    requires f != [] && Judge(Nmea0183, f) == Frame(|f|)
    requires i < |f| && b != f[i] && (i == 0 || i >= |f| - 2 || b == CR)
    ensures Judge(Nmea0183, f[i := b]) != Frame(|f|)
  {
    hide NmeaChecks, IndexOf;
    SentenceShape(f);
    var g, k := f[i := b], |f| - 2;
    if 0 < i < k {
      IndexOfIs(g, CR, i);
    } else if i == k {
      IndexOfIs(g, CR, |f|);
    } else if i == k + 1 {
      IndexOfIs(g, CR, k);
    }
  }

  /**
   A valid sentence with one byte changed outside its two digits is no longer valid. A changed digit goes
   unnoticed exactly when the two digits still read as the same number and no CR was put in.
   */
  lemma NmeaChange(f: seq<byte>, i: nat, b: byte)
    requires f != [] && Judge(Nmea0183, f) == Frame(|f|)
    requires i < |f| && b != f[i]
    ensures |f| >= 6
    ensures var g, n := f[i := b], |f| - 5;
            Judge(Nmea0183, g) == Frame(|f|)
            <==> n < i < n + 3 && b != CR
                 && NmeaSum.Strtol(g[n + 1], g[n + 2]) == NmeaSum.Strtol(f[n + 1], f[n + 2])
  {
    hide NmeaSum.XorOf, NmeaSum.Strtol, Val, IndexOf;
    SentenceShape(f);
    var g, n := f[i := b], |f| - 5;
    if i == 0 || i >= |f| - 2 || b == CR {
      OtherLine(f, i, b);
    } else {
      SameLine(f, i, b);
      if i < n {
        assert g[1..n] == f[1..n][i - 1 := b];
        XorNotices(f[1..n], i - 1, b);
        if Val(NmeaSum.XorOf(g[1..n])) == Val(NmeaSum.XorOf(f[1..n])) {
          Fletcher.ValInjective(NmeaSum.XorOf(g[1..n]), NmeaSum.XorOf(f[1..n]));
        }
      } else {
        assert g[1..n] == f[1..n];
      }
    }
  }
}
