/**
 The four framings written out: which byte strings are complete candidates, and which of them are valid. The
 filters judge a head by its first bytes and hold what may still become a candidate; this module says what
 that amounts to, without their order of checks.
 */
module Formats {
  import opened Bytes
  import opened Protocols
  import opened Parser
  import opened ParserLaws
  import X25
  import Crc24Q
  import Crc24Division
  import Fletcher
  import NmeaSum
  import ChecksumLaws
  import Encoders

  /** Preamble, length and line end are those of a whole frame. */
  predicate Complete(p: Protocol, f: seq<byte>) {
    match p
    case Mavlink1(_) => |f| >= 8 && f[0] == 0xFE && |f| == 8 + Val(f[1])
    case Rtcm3 => |f| >= 6 && f[0] == 0xD3 && |f| == 6 + 256 * (Val(f[1]) % 4) + Val(f[2])
    case Ubx => |f| >= 8 && f[0] == 0xB5 && f[1] == 0x62 && |f| == 8 + Val(f[4]) + 256 * Val(f[5])
    case Nmea0183 =>
      && 3 <= |f| <= 1024 && f[0] == 0x24 && f[|f| - 2] == 0x0d && f[|f| - 1] == 0x0a
      && 0x0d !in f[..|f| - 2]
  }

  /**
   The checksum of a complete candidate. MAVLink: the bit-serial register, started at 0xffff, is cleared by the
   frame without its preamble, the extra byte and the checksum. RTCM3: 0x1864CFB divides the frame. UBX: the byte
   sum and the weighted byte sum. NMEA: the number that `strtol` reads is the exclusive-or of the body.
   */
  predicate Sound(p: Protocol, f: seq<byte>)
    requires Complete(p, f)
  {
    var n := |f|;
    match p
    case Mavlink1(extra) =>
      X25.SerialCrc(0xffff, f[1..n - 2] + (if extra.Some? then [extra.value[Val(f[5])]] else []) + f[n - 2..]) == 0
    case Rtcm3 => Crc24Division.Remainder(Crc24Division.BitsOf(f)) == 0
    case Ubx =>
      && Val(f[n - 2]) == Fletcher.Sum(f[2..n - 2]) % 256
      && Val(f[n - 1]) == Fletcher.WeightedSum(f[2..n - 2], n - 4) % 256
    case Nmea0183 =>
      && n >= 6 && f[n - 5] == 0x2a
      && Val(NmeaSum.XorOf(f[1..n - 5])) == NmeaSum.StrtolOf([f[n - 4], f[n - 3]])
  }

  lemma RtcmLengthIs(hi: byte, lo: byte)
    ensures RtcmPayload(hi, lo) == 256 * (Val(hi) % 4) + Val(lo)
  {
    hide Val, RtcmPayload;
    Encoders.RtcmLengthBits(hi, lo);
    Encoders.TwoBits(hi);
  }

  /** The checksum that the filters compute says the same. */
  lemma ChecksIsSound(p: Protocol, f: seq<byte>)
    requires Complete(p, f)
    ensures Checks(p, f) <==> Sound(p, f)
  {
    hide MavlinkChecks, RtcmChecks, UbxChecks, NmeaChecks, Val, RtcmPayload;
    match p
    case Mavlink1(extra) => ChecksumLaws.MavlinkResidue(extra, f);
    case Rtcm3 => ChecksumLaws.RtcmResidue(f);
    case Ubx => UbxSound(f);
    case Nmea0183 => NmeaSound(f);
  }

  lemma UbxSound(f: seq<byte>)
    requires Complete(Ubx, f)
    ensures UbxChecks(f) <==> Sound(Ubx, f)
  {
    hide Val, Fletcher.Accumulate, Fletcher.Sum, Fletcher.WeightedSum;
    var n := |f| - 2;
    var (a, b) := Fletcher.Accumulate(f[2..n]);
    Fletcher.ClosedForm(f[2..n]);
    Fletcher.ValInjectiveOrApart(f[n], a);
    Fletcher.ValInjectiveOrApart(f[n + 1], b);
  }

  lemma NmeaSound(f: seq<byte>)
    requires Complete(Nmea0183, f)
    ensures NmeaChecks(f) <==> Sound(Nmea0183, f)
  {
    hide Val, NmeaSum.XorOf, NmeaSum.Strtol, NmeaSum.StrtolOf;
    var n := |f| - 5;
    if n >= 1 {
      NmeaSum.StrtolIsStrtol(f[n + 1], f[n + 2]);
    }
  }

  // ---------- the verdicts ----------

  /** A candidate at the head is a complete one of its length. */
  lemma ExtentIsComplete(p: Protocol, s: seq<byte>, n: nat)
    requires s != [] && n <= |s|
    ensures ExtentOf(p, s) == Exactly(n) <==> Complete(p, s[..n])
  {
    hide Val, RtcmPayload, UbxPayload, IndexOf;
    if p.Nmea0183? {
      SentenceIsComplete(s, n);
    } else if p.Rtcm3? && |s| >= 3 {
      RtcmLengthIs(s[1], s[2]);
    } else if p.Ubx? && |s| >= 6 {
      UbxLengthIs(s[4], s[5]);
    }
  }

  lemma UbxLengthIs(lo: byte, hi: byte)
    ensures UbxPayload(lo, hi) == Val(lo) + 256 * Val(hi)
  {
  }

  lemma SentenceIsComplete(s: seq<byte>, n: nat)
    requires s != [] && n <= |s|
    ensures ExtentOf(Nmea0183, s) == Exactly(n) <==> Complete(Nmea0183, s[..n])
  {
    hide IndexOf;
    var f, k := s[..n], IndexOf(s, CR);
    if Complete(Nmea0183, f) {
      assert forall i :: 0 <= i < n - 2 ==> s[i] == f[..n - 2][i];
      IndexOfIs(s, CR, n - 2);
    }
    if ExtentOf(Nmea0183, s) == Exactly(n) {
      assert k != 0;
      assert forall i :: 0 <= i < n - 2 ==> f[..n - 2][i] == s[i];
    }
  }

  /** A valid frame of `n` bytes is found exactly where there is one, and so is a candidate that fails. */
  lemma CandidateFound(p: Protocol, s: seq<byte>, n: nat)
    requires s != []
    ensures Judge(p, s) == Frame(n) <==> n <= |s| && Complete(p, s[..n]) && Sound(p, s[..n])
    ensures Judge(p, s) == Bad(n) <==> n <= |s| && Complete(p, s[..n]) && !Sound(p, s[..n])
  {
    hide ExtentOf, Complete, Checks, Sound;
    if n <= |s| {
      ExtentIsComplete(p, s, n);
      if Complete(p, s[..n]) {
        ChecksIsSound(p, s[..n]);
      }
    }
  }

  /** The last bytes of a candidate that begins with `s`. */
  lemma Completion(p: Protocol, s: seq<byte>) returns (t: seq<byte>)
    requires s != [] && Judge(p, s) == Wait
    ensures Complete(p, s + t)
  {
    hide Judge, Complete;
    match p
    case Mavlink1(_) => t := MavlinkCompletion(p, s);
    case Rtcm3 => t := RtcmCompletion(s);
    case Ubx => t := UbxCompletion(s);
    case Nmea0183 => t := NmeaCompletion(s);
  }

  lemma MavlinkCompletion(p: Protocol, s: seq<byte>) returns (t: seq<byte>)
    requires p.Mavlink1? && s != [] && Judge(p, s) == Wait
    ensures Complete(p, s + t)
  {
    hide Checks, Val;
    var pad := Filling(2, |s|);
    var u := s + pad;
    var n := 8 + Val(u[1]);
    t := pad + Filling(n, |u|);
    assert s + t == u + Filling(n, |u|);
  }

  lemma RtcmCompletion(s: seq<byte>) returns (t: seq<byte>)
    requires s != [] && Judge(Rtcm3, s) == Wait
    ensures Complete(Rtcm3, s + t)
  {
    hide Checks, RtcmPayload, Val;
    var pad := Filling(3, |s|);
    var u := s + pad;
    RtcmLengthIs(u[1], u[2]);
    var n := 6 + RtcmPayload(u[1], u[2]);
    t := pad + Filling(n, |u|);
    assert s + t == u + Filling(n, |u|);
  }

  lemma UbxCompletion(s: seq<byte>) returns (t: seq<byte>)
    requires s != [] && Judge(Ubx, s) == Wait
    ensures Complete(Ubx, s + t)
  {
    hide Checks, UbxPayload, Val;
    var pad := (if |s| < 2 then [0x62] else []) + Filling(6, if |s| < 2 then 2 else |s|);
    var u := s + pad;
    UbxLengthIs(u[4], u[5]);
    var n := 8 + UbxPayload(u[4], u[5]);
    t := pad + Filling(n, |u|);
    assert s + t == u + Filling(n, |u|);
  }

  lemma NmeaCompletion(s: seq<byte>) returns (t: seq<byte>)
    requires s != [] && Judge(Nmea0183, s) == Wait
    ensures Complete(Nmea0183, s + t)
  {
    hide Checks, IndexOf;
    t := if IndexOf(s, CR) == |s| then [0x0d, 0x0a] else [0x0a];
    var f := s + t;
    assert forall i :: 0 <= i < |f| - 2 ==> f[..|f| - 2][i] == s[i];
  }

  /** Zeros up to a length. */
  function Filling(n: nat, from: nat): (s: seq<byte>)
    ensures |s| == if from < n then n - from else 0
  {
    seq(if from < n then n - from else 0, _ => 0)
  }

  /** A head is waited for exactly when it is no candidate yet and can still become one. */
  lemma WaitingFor(p: Protocol, s: seq<byte>)
    requires s != []
    ensures Judge(p, s) == Wait
       <==> (forall n :: 0 <= n <= |s| ==> !Complete(p, s[..n])) && exists t :: Complete(p, s + t)
  {
    hide Judge, Complete, Sound;
    if Judge(p, s) == Wait {
      forall n | 0 <= n <= |s| ensures !Complete(p, s[..n]) {
        CandidateFound(p, s, n);
      }
      var t := Completion(p, s);
      assert Complete(p, s + t);
    } else if (forall n :: 0 <= n <= |s| ==> !Complete(p, s[..n])) && exists t :: Complete(p, s + t) {
      var t :| Complete(p, s + t);
      var f := s + t;
      JudgeStable(p, s, t);
      assert f[..|f|] == f;
      CandidateFound(p, f, |f|);
      var v := Judge(p, s);
      if v.Frame? || v.Bad? {
        CandidateFound(p, s, v.n);
      }
    }
  }

  /** What reaches next, in terms of its bytes. */
  lemma FramesOnTheWire(p: Protocol, s: seq<byte>)
    ensures forall f :: f in FramesOf(Parse(p, s).events) ==> Complete(p, f) && Sound(p, f)
  {
    hide Judge, Complete, Sound, Parse, FramesOf;
    OnlyValidFrames(p, s);
    forall f | f in FramesOf(Parse(p, s).events) ensures Complete(p, f) && Sound(p, f) {
      CandidateFound(p, f, |f|);
      assert f[..|f|] == f;
    }
  }
}
