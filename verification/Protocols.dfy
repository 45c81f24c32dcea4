/**
 The four framings the stream filters recognise, as a question about the head of a byte string: can a
 frame start here, how long is it, and does its checksum hold.
 */
module Protocols {
  import opened Bytes
  import X25
  import Crc24Q
  import Fletcher
  import NmeaSum

  /** One extra checksum byte for each MAVLink message id. */
  type CrcTable = t: seq<byte> | |t| == 256 witness seq(256, _ => 0)

  /** MAVLink carries its optional table of extra bytes; a null table leaves the extra byte out. */
  datatype Protocol = Mavlink1(extra: Option<CrcTable>) | Rtcm3 | Ubx | Nmea0183 {

    /** The byte a frame starts with. */
    function Preamble(): byte {
      match this
      case Mavlink1(_) => 0xFE
      case Rtcm3 => 0xD3
      case Ubx => 0xB5
      case Nmea0183 => '$' as byte
    }

    /** How many bytes at the end of a frame are processed a second time, as stream data. */
    function Keep(): nat {
      if Nmea0183? then 1 else 0
    }
  }

  const UBX_PREAMBLE1: byte := 0x62
  const CR: byte := 0x0d
  const LF: byte := 0x0a
  /** Room for a sentence before its CR: the packet buffer less CR and LF. */
  const NMEA_ROOM := 1022

  /** How long the frame that would start a byte string is, as far as its bytes tell. */
  datatype Extent = NoFrame | Unknown | Exactly(n: nat)

  function RtcmPayload(hi: byte, lo: byte): (n: nat)
    ensures n < 1024
  {
    ((((hi as bv16) << 8) | (lo as bv16)) & 0x3ff) as nat
  }

  function UbxPayload(lo: byte, hi: byte): (n: nat)
    ensures n < 65536
  {
    Val(lo) + 256 * Val(hi)
  }

  function NmeaExtent(s: seq<byte>): Extent {
    var k := IndexOf(s, CR);
    if k == |s| then
      if |s| > NMEA_ROOM then NoFrame else Unknown
    else if k > NMEA_ROOM then NoFrame
    else if k + 1 == |s| then Unknown
    else if s[k + 1] != LF then NoFrame
    else Exactly(k + 2)
  }

  function ExtentOf(p: Protocol, s: seq<byte>): Extent
    requires s != []
  {
    if s[0] != p.Preamble() then NoFrame
    else
      match p
      case Mavlink1(_) =>
        if |s| < 2 then Unknown else Exactly(8 + Val(s[1]))
      case Rtcm3 =>
        if |s| < 3 then Unknown else Exactly(6 + RtcmPayload(s[1], s[2]))
      case Ubx =>
        if |s| < 2 then Unknown
        else if s[1] != UBX_PREAMBLE1 then NoFrame
        else if |s| < 6 then Unknown
        else Exactly(8 + UbxPayload(s[4], s[5]))
      case Nmea0183 => NmeaExtent(s)
  }

  // ---------- checksums ----------

  /** The MAVLink register after the bytes a frame covers and the extra byte of its message id. */
  function MavlinkCrc(extra: Option<CrcTable>, f: seq<byte>): bv16
    requires |f| >= 8
  {
    var crc := X25.CrcFrom(X25.INIT_CRC, f[1..|f| - 2]);
    if extra.Some? then X25.Accumulate(crc, extra.value[Val(f[5])]) else crc
  }

  predicate MavlinkChecks(extra: Option<CrcTable>, f: seq<byte>) {
    |f| >= 8 && X25.Word(f[|f| - 2], f[|f| - 1]) == MavlinkCrc(extra, f)
  }

  predicate RtcmChecks(f: seq<byte>) {
    var n := |f| - 3;
    n >= 3 && Crc24Q.Joined(f[n], f[n + 1], f[n + 2]) == Crc24Q.Crc(f[..n])
  }

  predicate UbxChecks(f: seq<byte>) {
    var n := |f| - 2;
    n >= 6 && (f[n], f[n + 1]) == Fletcher.Accumulate(f[2..n])
  }

  /** The source reads before the start of a candidate shorter than five bytes; such a candidate fails here. */
  predicate NmeaChecks(f: seq<byte>) {
    var n := |f| - 5;
    n >= 1 && f[n] == '*' as byte && Val(NmeaSum.XorOf(f[1..n])) == NmeaSum.Strtol(f[n + 1], f[n + 2])
  }

  predicate Checks(p: Protocol, f: seq<byte>) {
    match p
    case Mavlink1(extra) => MavlinkChecks(extra, f)
    case Rtcm3 => RtcmChecks(f)
    case Ubx => UbxChecks(f)
    case Nmea0183 => NmeaChecks(f)
  }

  // ---------- the verdict on a head ----------

  /**
   What to do with the head of a byte string: no frame starts here, more bytes are needed, or `n` bytes are
   a complete candidate whose checksum holds or fails.
   */
  datatype Verdict = Junk | Wait | Frame(n: nat) | Bad(n: nat)

  function Judge(p: Protocol, s: seq<byte>): (v: Verdict)
    requires s != []
  {
    match ExtentOf(p, s)
    case NoFrame => Junk
    case Unknown => Wait
    case Exactly(n) =>
      if |s| < n then Wait else if Checks(p, s[..n]) then Frame(n) else Bad(n)
  }

  // ---------- what the parser relies on ----------

  /** A complete candidate starts with the preamble, is longer than what it keeps, and keeps no preamble. */
  lemma CandidateShape(p: Protocol, s: seq<byte>)
    requires s != []
    ensures var v := Judge(p, s);
            v.Frame? || v.Bad? ==> p.Keep() + 1 < v.n <= |s| && s[0] == p.Preamble()
                                   && (p.Keep() == 1 ==> s[v.n - 1] != p.Preamble())
    ensures s[0] != p.Preamble() ==> Judge(p, s) == Junk
  {
    hide Checks, RtcmPayload, UbxPayload;
  }

  lemma JudgeWhole(p: Protocol, f: seq<byte>)
    requires f != [] && ExtentOf(p, f) == Exactly(|f|)
    ensures Judge(p, f) == if Checks(p, f) then Frame(|f|) else Bad(|f|)
  {
    hide Checks, ExtentOf;
    assert f[..|f|] == f;
  }

  lemma IndexOfPrefix(s: seq<byte>, t: seq<byte>, b: byte)
    ensures IndexOf(s + t, b) == if IndexOf(s, b) < |s| then IndexOf(s, b) else |s| + IndexOf(t, b)
  {
    var k := if IndexOf(s, b) < |s| then IndexOf(s, b) else |s| + IndexOf(t, b);
    IndexOfIs(s + t, b, k);
  }

  lemma ExtentStable(p: Protocol, s: seq<byte>, t: seq<byte>)
    requires s != [] && ExtentOf(p, s) != Unknown
    ensures ExtentOf(p, s + t) == ExtentOf(p, s)
  {
    hide RtcmPayload, UbxPayload, IndexOf;
    if p.Nmea0183? {
      IndexOfPrefix(s, t, CR);
      assert IndexOf(s, CR) <= |s|;
    }
  }

  /** More input never changes a verdict that has been reached. */
  lemma JudgeStable(p: Protocol, s: seq<byte>, t: seq<byte>)
    requires s != [] && Judge(p, s) != Wait
    ensures Judge(p, s + t) == Judge(p, s)
  {
    hide ExtentOf, Checks;
    ExtentStable(p, s, t);
    match ExtentOf(p, s)
    case Exactly(n) => assert (s + t)[..n] == s[..n];
    case _ =>
  }
}
