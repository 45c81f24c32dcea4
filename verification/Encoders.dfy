/** Senders for the four protocols: every message they build is a frame the filters accept. */
module Encoders {
  import opened Bytes
  import opened Protocols
  import X25
  import Crc24Q
  import Fletcher
  import NmeaSum

  // ---------- MAVLink 1 ----------

  function Low(crc: bv16): byte {
    (crc & 0xff) as byte
  }

  function High(crc: bv16): byte {
    (crc >> 8) as byte
  }

  lemma LowHigh(crc: bv16)
    ensures X25.Word(Low(crc), High(crc)) == crc
  {
  }

  function MavlinkBody(seqNo: byte, sysid: byte, compid: byte, msgid: byte, payload: seq<byte>): seq<byte>
    requires |payload| < 256
  {
    [ToByte(|payload|), seqNo, sysid, compid, msgid] + payload
  }

  function EncodeMavlink(extra: Option<CrcTable>, seqNo: byte, sysid: byte, compid: byte, msgid: byte,
                         payload: seq<byte>): seq<byte>
    requires |payload| < 256
  {
    var body := MavlinkBody(seqNo, sysid, compid, msgid, payload);
    var crc := X25.CrcFrom(X25.INIT_CRC, body);
    var crc' := if extra.Some? then X25.Accumulate(crc, extra.value[Val(msgid)]) else crc;
    [0xFE] + body + [Low(crc'), High(crc')]
  }

  lemma MavlinkAccepted(extra: Option<CrcTable>, seqNo: byte, sysid: byte, compid: byte, msgid: byte,
                        payload: seq<byte>)
    requires |payload| < 256
    ensures var f := EncodeMavlink(extra, seqNo, sysid, compid, msgid, payload);
            && Judge(Mavlink1(extra), f) == Frame(|f|)
            && f[3] == sysid && f[4] == compid && f[5] == msgid && f[6..|f| - 2] == payload
  {
    hide Val, ToByte, Low, High, X25.Word, X25.Accumulate, X25.CrcFrom;
    var f := EncodeMavlink(extra, seqNo, sysid, compid, msgid, payload);
    var body := MavlinkBody(seqNo, sysid, compid, msgid, payload);
    assert f[1..|f| - 2] == body;
    assert f[1] == ToByte(|payload|) && f[5] == msgid;
    LowHigh(MavlinkCrc(extra, f));
    JudgeWhole(Mavlink1(extra), f);
  }

  // ---------- RTCM 3 ----------

  lemma RtcmLengthBits(hi: byte, lo: byte)
    ensures RtcmPayload(hi, lo) == Val(hi & 3) * 256 + Val(lo)
  {
  }

  lemma TwoBits(hi: byte)
    ensures Val(hi & 3) == Val(hi) % 4
  {
  }

  lemma RtcmLength(n: nat)
    requires n < 1024
    ensures n / 256 < 256 && RtcmPayload(ToByte(n / 256), ToByte(n % 256)) == n
  {
    hide Val, ToByte, RtcmPayload;
    RtcmLengthBits(ToByte(n / 256), ToByte(n % 256));
    TwoBits(ToByte(n / 256));
  }

  function Byte3(crc: bv32, k: nat): byte
    requires k < 3
  {
    if k == 0 then ((crc >> 16) & 0xff) as byte
    else if k == 1 then ((crc >> 8) & 0xff) as byte
    else (crc & 0xff) as byte
  }

  lemma ThreeBytes(crc: bv32)
    requires Crc24Q.IsWord(crc)
    ensures Crc24Q.Joined(Byte3(crc, 0), Byte3(crc, 1), Byte3(crc, 2)) == crc
  {
    WordMasked(crc);
    ThreeBytesMasked(crc);
  }

  lemma WordMasked(crc: bv32)
    requires crc < 0x1000000
    ensures crc & 0xffffff == crc
  {
  }

  lemma ThreeBytesMasked(crc: bv32)
    ensures ((((crc >> 16) & 0xff) as byte as bv32) << 16) | ((((crc >> 8) & 0xff) as byte as bv32) << 8)
            | ((crc & 0xff) as byte as bv32) == crc & 0xffffff
  {
  }

  function EncodeRtcm(payload: seq<byte>): seq<byte>
    requires |payload| < 1024
  {
    var body := [0xD3, ToByte(|payload| / 256), ToByte(|payload| % 256)] + payload;
    var crc := Crc24Q.Crc(body);
    body + [Byte3(crc, 0), Byte3(crc, 1), Byte3(crc, 2)]
  }

  lemma RtcmAccepted(payload: seq<byte>)
    requires |payload| < 1024
    ensures var f := EncodeRtcm(payload); Judge(Rtcm3, f) == Frame(|f|) && f[3..|f| - 3] == payload
  {
    hide Val, ToByte, RtcmPayload, Byte3, Crc24Q.CrcFrom, Crc24Q.Joined, Crc24Q.IsWord;
    var f := EncodeRtcm(payload);
    var n := |f| - 3;
    RtcmLength(|payload|);
    Crc24Q.ZeroWord();
    Crc24Q.CrcIsWord(0, f[..n]);
    assert f[..n] == [0xD3, ToByte(|payload| / 256), ToByte(|payload| % 256)] + payload;
    ThreeBytes(Crc24Q.Crc(f[..n]));
    JudgeWhole(Rtcm3, f);
  }

  // ---------- UBX ----------

  function EncodeUbx(cls: byte, id: byte, payload: seq<byte>): seq<byte>
    requires |payload| < 65536
  {
    var body := [cls, id, ToByte(|payload| % 256), ToByte(|payload| / 256)] + payload;
    var ck := Fletcher.Accumulate(body);
    [0xB5, 0x62] + body + [ck.0, ck.1]
  }

  lemma UbxAccepted(cls: byte, id: byte, payload: seq<byte>)
    requires |payload| < 65536
    ensures var f := EncodeUbx(cls, id, payload);
            Judge(Ubx, f) == Frame(|f|) && f[2] == cls && f[3] == id && f[6..|f| - 2] == payload
  {
    hide Val, ToByte, Fletcher.Accumulate;
    var f := EncodeUbx(cls, id, payload);
    var n := |f| - 2;
    assert f[2..n] == [cls, id, ToByte(|payload| % 256), ToByte(|payload| / 256)] + payload;
    JudgeWhole(Ubx, f);
  }

  // ---------- NMEA 0183 ----------

  /** `$`, the body, `*`, the checksum as two hexadecimal digits, each in either case, CR LF. */
  function EncodeNmea(body: seq<byte>, upper0: bool, upper1: bool): seq<byte> {
    var x := Val(NmeaSum.XorOf(body));
    [0x24] + body + [0x2a, NmeaSum.HexChar(x / 16, upper0), NmeaSum.HexChar(x % 16, upper1), 0x0d, 0x0a]
  }

  lemma HexIsNotCr(n: nat, upper: bool)
    requires n < 16
    ensures NmeaSum.HexChar(n, upper) != CR
  {
    hide Val, ToByte;
    CrIsNoDigit();
  }

  lemma CrIsNoDigit()
    ensures NmeaSum.Digit(CR) == -1
  {
  }

  lemma NmeaAccepted(body: seq<byte>, upper0: bool, upper1: bool)
    requires 0x0d !in body && |body| + 4 <= 1022
    ensures var f := EncodeNmea(body, upper0, upper1); Judge(Nmea0183, f) == Frame(|f|) && f[1..|f| - 5] == body
  {
    hide Val, NmeaSum.XorOf, NmeaSum.HexChar, NmeaSum.Strtol, IndexOf;
    var f := EncodeNmea(body, upper0, upper1);
    var x := Val(NmeaSum.XorOf(body));
    var n := |f| - 5;
    assert f[1..n] == body;
    HexIsNotCr(x / 16, upper0);
    HexIsNotCr(x % 16, upper1);
    NmeaSum.StrtolReads(x, upper0, upper1);
    IndexOfIs(f, CR, |f| - 2);
    JudgeWhole(Nmea0183, f);
  }
}
