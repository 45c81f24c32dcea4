/** One published frame of each protocol, byte by byte. */
module Examples {
  import opened Bytes
  import opened Protocols
  import X25
  import Crc24Q
  import Fletcher
  import NmeaSum

  // ---------- MAVLink 1: a heartbeat ----------

  const HEARTBEAT: seq<byte> :=
    [0xFE, 0x09, 0x00, 0x01, 0x01, 0x00, 0x00, 0x00, 0x00, 0x00, 0x02, 0x03, 0x51, 0x04, 0x03, 0x7D, 0xDD]

  lemma HeartbeatSteps()
    ensures X25.Accumulate(0xffff, 0x09) == 0x9246 && X25.Accumulate(0x9246, 0x00) == 0x27A0
    ensures X25.Accumulate(0x27A0, 0x01) == 0xB4A4 && X25.Accumulate(0xB4A4, 0x01) == 0xF213
    ensures X25.Accumulate(0xF213, 0x00) == 0x22E8 && X25.Accumulate(0x22E8, 0x00) == 0x6B64
    ensures X25.Accumulate(0x6B64, 0x00) == 0x2549 && X25.Accumulate(0x2549, 0x00) == 0xDFE0
    ensures X25.Accumulate(0xDFE0, 0x00) == 0xE7D1 && X25.Accumulate(0xE7D1, 0x02) == 0xE4F1
    ensures X25.Accumulate(0xE4F1, 0x03) == 0xD479 && X25.Accumulate(0xD479, 0x51) == 0xAD9E
    ensures X25.Accumulate(0xAD9E, 0x04) == 0x3B7E && X25.Accumulate(0x3B7E, 0x03) == 0xA859
    ensures X25.Accumulate(0xA859, 50) == 0xDD7D
  {
  }

  /** A heartbeat is valid with the extra byte 50 for message 0. */
  lemma Heartbeat(table: CrcTable)
    requires table[0] == 50
    ensures Judge(Mavlink1(Some(table)), HEARTBEAT) == Frame(17)
  {
    hide MavlinkChecks;
    HeartbeatChecks(table);
    HeartbeatLength();
    JudgeWhole(Mavlink1(Some(table)), HEARTBEAT);
  }

  lemma HeartbeatLength()
    ensures Val(0x09) == 9 && Val(0x00) == 0
  {
  }

  lemma HeartbeatChecks(table: CrcTable)
    requires table[0] == 50
    ensures MavlinkChecks(Some(table), HEARTBEAT)
  {
    hide X25.CrcFrom, X25.Accumulate, Val;
    var body := HEARTBEAT[1..15];
    var regs: seq<bv16> :=
      [0xffff, 0x9246, 0x27A0, 0xB4A4, 0xF213, 0x22E8, 0x6B64, 0x2549, 0xDFE0, 0xE7D1, 0xE4F1, 0xD479, 0xAD9E,
       0x3B7E, 0xA859];
    HeartbeatSteps();
    X25.Trail(regs, body);
    HeartbeatLength();
    HeartbeatWord();
  }

  lemma HeartbeatWord()
    ensures X25.Word(0x7D, 0xDD) == 0xDD7D
  {
  }

  // ---------- RTCM 3: an empty message ----------

  const EMPTY_RTCM: seq<byte> := [0xD3, 0x00, 0x00, 0x47, 0xEA, 0x4B]

  lemma EmptySteps()
    ensures Crc24Q.AddByte(0, 0xD3) == 0xE33309 && Crc24Q.AddByte(0xE33309, 0x00) == 0x19A569
    ensures Crc24Q.AddByte(0x19A569, 0x00) == 0x47EA4B
    ensures Crc24Q.Joined(0x47, 0xEA, 0x4B) == 0x47EA4B
    ensures RtcmPayload(0x00, 0x00) == 0
  {
  }

  lemma EmptyMessage()
    ensures Judge(Rtcm3, EMPTY_RTCM) == Frame(6)
  {
    hide Crc24Q.CrcFrom, Crc24Q.AddByte, Crc24Q.Joined, RtcmPayload;
    EmptySteps();
    var regs: seq<bv32> := [0, 0xE33309, 0x19A569, 0x47EA4B];
    assert EMPTY_RTCM[..3] == [0xD3, 0x00, 0x00];
    Crc24Q.Trail(regs, [0xD3, 0x00, 0x00]);
    JudgeWhole(Rtcm3, EMPTY_RTCM);
  }

  // ---------- UBX: a poll of MON-VER ----------

  const POLL: seq<byte> := [0xB5, 0x62, 0x0A, 0x04, 0x00, 0x00, 0x0E, 0x34]

  lemma Poll()
    ensures Judge(Ubx, POLL) == Frame(8)
  {
    hide UbxChecks;
    PollChecks();
    HeartbeatLength();
    JudgeWhole(Ubx, POLL);
  }

  lemma PollChecks()
    ensures UbxChecks(POLL)
  {
    hide Fletcher.Add;
    var msg: seq<byte> := [0x0A, 0x04, 0x00, 0x00];
    assert POLL[2..6] == msg;
    PollSteps();
    assert msg[..3][..2][..1][..0] == [];
    assert Fletcher.Accumulate(msg[..3][..2][..1][..0]) == (0, 0);
    assert Fletcher.Accumulate(msg[..3][..2][..1]) == (0x0A, 0x0A);
    assert Fletcher.Accumulate(msg[..3][..2]) == (0x0E, 0x18);
    assert Fletcher.Accumulate(msg[..3]) == (0x0E, 0x26);
  }

  lemma PollSteps()
    ensures Fletcher.Add(0, 0x0A) == 0x0A
    ensures Fletcher.Add(0x0A, 0x04) == 0x0E && Fletcher.Add(0x0A, 0x0E) == 0x18
    ensures Fletcher.Add(0x0E, 0x00) == 0x0E && Fletcher.Add(0x18, 0x0E) == 0x26
    ensures Fletcher.Add(0x26, 0x0E) == 0x34
  {
    hide Val, Fletcher.Add;
    PollValues();
    Sum(0, 0x0A, 0x0A);
    Sum(0x0A, 0x04, 0x0E);
    Sum(0x0A, 0x0E, 0x18);
    Sum(0x0E, 0x00, 0x0E);
    Sum(0x18, 0x0E, 0x26);
    Sum(0x26, 0x0E, 0x34);
  }

  lemma PollValues()
    ensures Val(0) == 0 && Val(0x0A) == 10 && Val(0x04) == 4 && Val(0x0E) == 14
    ensures Val(0x18) == 24 && Val(0x26) == 38 && Val(0x34) == 52
  {
  }

  lemma Sum(a: byte, b: byte, c: byte)
    requires Val(c) == (Val(a) + Val(b)) % 256
    ensures Fletcher.Add(a, b) == c
  {
    hide Val;
    Fletcher.AddVal(a, b);
    Fletcher.ValInjective(Fletcher.Add(a, b), c);
  }

  // ---------- NMEA 0183: the sentence $PUBX,00*33 ----------

  const SENTENCE: seq<byte> := [0x24, 0x50, 0x55, 0x42, 0x58, 0x2C, 0x30, 0x30, 0x2A, 0x33, 0x33, 0x0D, 0x0A]

  lemma Sentence()
    ensures Judge(Nmea0183, SENTENCE) == Frame(13)
  {
    hide NmeaChecks, IndexOf;
    SentenceChecks();
    IndexOfIs(SENTENCE, CR, 11);
    JudgeWhole(Nmea0183, SENTENCE);
  }

  lemma SentenceChecks()
    ensures NmeaChecks(SENTENCE)
  {
    hide NmeaSum.XorOf, NmeaSum.Strtol;
    var body := SENTENCE[1..8];
    BodySteps();
    NmeaSum.Trail([0x00, 0x50, 0x05, 0x47, 0x1F, 0x33, 0x03, 0x33], body);
    SentenceNumber();
  }

  lemma BodySteps()
    ensures (0x00 as byte) ^ 0x50 == 0x50 && (0x50 as byte) ^ 0x55 == 0x05 && (0x05 as byte) ^ 0x42 == 0x47
    ensures (0x47 as byte) ^ 0x58 == 0x1F && (0x1F as byte) ^ 0x2C == 0x33 && (0x33 as byte) ^ 0x30 == 0x03
    ensures (0x03 as byte) ^ 0x30 == 0x33
  {
  }

  lemma SentenceNumber()
    ensures Val(0x33) == 0x33 && NmeaSum.Strtol(0x33, 0x33) == 0x33
  {
  }
}
