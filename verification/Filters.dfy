/**
 The stream filters and the wiring between them. A filter writes to other filters through virtual calls, so
 the classes need each other: they share this module, and `Target` lists the classes a virtual `write` can
 reach.
 */
module Filters {
  import opened Bytes
  import opened Protocols
  import opened Parser
  import opened ParserLaws
  import opened FeedLaws
  import opened FilterTotals
  import opened Chain
  import opened NmeaLines
  import opened StatObj
  import X25
  import Crc24Q
  import Fletcher
  import NmeaSum
  import MixedStreams

  // ---------- endpoints and wiring ----------

  /** What stands behind a `Writeable`: a recogniser, or something outside the model. */
  datatype Target =
    | Sink
    | ToMavlink(mavlink: MavlinkV1)
    | ToRtcm(rtcm: RtcmV3)
    | ToUbx(ubx: UbxFilter)
    | ToNmea(nmea: NmeaFilter)

  /** A destination of frames, and what it had received when it was wired. */
  datatype Port = Port(to: Endpoint, before: seq<seq<byte>>)

  /**
   The recognisers reached by following `rest`, as far as each saw all its predecessor let through; for each
   of them the `next` that was wired before its first output; and the endpoint outside the model that takes
   what the last of them lets through.
   */
  datatype Line = Line(chain: seq<Protocol>, ports: seq<Option<Port>>, last: Option<Endpoint>)

  type Route = r: Line | |r.chain| == |r.ports| witness NOWHERE

  const NOWHERE := Line([], [], None)

  /** A `Writeable` as its callers see it. */
  class Endpoint {
    const target: Target
    /** Every chunk written here so far. */
    ghost var writes: seq<seq<byte>>
    /** Where the bytes written here go. */
    ghost var route: Route
    ghost var Repr: set<object>
    /** Height of the wiring below; it bounds the nesting of calls. */
    ghost var rank: nat

    ghost predicate Hosts(f: object, packet: array<byte>, base: FilterBase)
      reads this`Repr, this`rank, base`Repr, base`rank
    {
      && f in Repr && packet in Repr && base.Repr <= Repr
      && this !in base.Repr && base.rank < rank
    }

    /** A recogniser behind the endpoint has done what its specification says about all that was written. */
    ghost predicate Valid()
      reads this, Repr
      ensures Valid() ==> this in Repr
      decreases rank, 0
    {
      && this in Repr
      && match target
         case Sink => route == Line([], [], Some(this))
         case ToMavlink(f) =>
           && f.base in Repr && Hosts(f, f.packet, f.base) && f.Valid()
           && f.Snapshot() == Run(f.Proto(), writes) && route == f.base.Through(f.Proto())
         case ToRtcm(f) =>
           && f.base in Repr && Hosts(f, f.packet, f.base) && f.Valid()
           && f.Snapshot() == Run(Rtcm3, writes) && route == f.base.Through(Rtcm3)
         case ToUbx(f) =>
           && f.base in Repr && Hosts(f, f.packet, f.base) && f.Valid()
           && f.Snapshot() == Run(Ubx, writes) && route == f.base.Through(Ubx)
         case ToNmea(f) =>
           && f.base in Repr && Hosts(f, f.packet, f.base) && f.Valid()
           && f.Snapshot() == Run(Nmea0183, writes) && route == f.base.Through(Nmea0183)
    }

    constructor ToSink()
      ensures Valid() && fresh(Repr) && writes == [] && route == Line([], [], Some(this))
    {
      target := Sink;
      writes, Repr, rank := [], {this}, 0;
      new;
      route := Line([], [], Some(this));
    }

    constructor OfMavlink(f: MavlinkV1)
      requires f.Valid() && f.Snapshot() == FRESH
      ensures Valid() && fresh(Repr - {f, f.packet, f.base} - f.base.Repr) && target == ToMavlink(f)
      ensures Repr == {this, f, f.packet, f.base} + f.base.Repr
      ensures writes == [] && route == f.base.Through(f.Proto())
    {
      target := ToMavlink(f);
      writes, route := [], f.base.Through(f.Proto());
      Repr := {this, f, f.packet, f.base} + f.base.Repr;
      rank := f.base.rank + 1;
    }

    constructor OfRtcm(f: RtcmV3)
      requires f.Valid() && f.Snapshot() == FRESH
      ensures Valid() && fresh(Repr - {f, f.packet, f.base} - f.base.Repr) && target == ToRtcm(f)
      ensures Repr == {this, f, f.packet, f.base} + f.base.Repr
      ensures writes == [] && route == f.base.Through(Rtcm3)
    {
      target := ToRtcm(f);
      writes, route := [], f.base.Through(Rtcm3);
      Repr := {this, f, f.packet, f.base} + f.base.Repr;
      rank := f.base.rank + 1;
    }

    constructor OfUbx(f: UbxFilter)
      requires f.Valid() && f.Snapshot() == FRESH
      ensures Valid() && fresh(Repr - {f, f.packet, f.base} - f.base.Repr) && target == ToUbx(f)
      ensures Repr == {this, f, f.packet, f.base} + f.base.Repr
      ensures writes == [] && route == f.base.Through(Ubx)
    {
      target := ToUbx(f);
      writes, route := [], f.base.Through(Ubx);
      Repr := {this, f, f.packet, f.base} + f.base.Repr;
      rank := f.base.rank + 1;
    }

    constructor OfNmea(f: NmeaFilter)
      requires f.Valid() && f.Snapshot() == FRESH
      ensures Valid() && fresh(Repr - {f, f.packet, f.base} - f.base.Repr) && target == ToNmea(f)
      ensures Repr == {this, f, f.packet, f.base} + f.base.Repr
      ensures writes == [] && route == f.base.Through(Nmea0183)
    {
      target := ToNmea(f);
      writes, route := [], f.base.Through(Nmea0183);
      Repr := {this, f, f.packet, f.base} + f.base.Repr;
      rank := f.base.rank + 1;
    }

    /** The bytes reached whatever is behind the endpoint, and the wiring is as it was. */
    twostate predicate Written(buf: array<byte>, off: nat, len: nat)
      requires off + len <= buf.Length
      reads this, Repr, buf, if target.Sink? then {} else {BaseOf(target)}
    {
      && Valid() && Repr == old(Repr) && rank == old(rank) && route == old(route)
      && (!target.Sink? ==> BaseOf(target).Kept())
      && writes == old(writes) + [old(buf[off..off + len])]
    }

    /** The virtual call. */
    method Write(buf: array<byte>, off: nat, len: nat)
      requires Valid() && buf !in Repr && off + len <= buf.Length
      modifies Repr
      ensures Written(buf, off, len)
      decreases rank, 0, 1
    {
      hide Valid;
      match target {
        case Sink => Record(buf, off, len);
        case ToMavlink(f) => WriteMavlink(f, buf, off, len);
        case ToRtcm(f) => WriteRtcm(f, buf, off, len);
        case ToUbx(f) => WriteUbx(f, buf, off, len);
        case ToNmea(f) => WriteNmea(f, buf, off, len);
      }
    }

    method Record(buf: array<byte>, off: nat, len: nat)
      requires Valid() && target.Sink? && buf !in Repr && off + len <= buf.Length
      modifies Repr
      ensures Written(buf, off, len)
    {
      writes := writes + [buf[off..off + len]];
    }

    method WriteMavlink(f: MavlinkV1, buf: array<byte>, off: nat, len: nat)
      requires Valid() && target == ToMavlink(f) && buf !in Repr && off + len <= buf.Length
      modifies Repr
      ensures Written(buf, off, len)
      decreases rank, 0, 0
    {
      hide Run, Feed, FilterBase.Valid, MavlinkV1.Valid, MavlinkV1.Snapshot;
      RunOneMore(f.Proto(), writes, buf[off..off + len]);
      var _ := f.Write(buf, off, len);
      writes := writes + [buf[off..off + len]];
    }

    method WriteRtcm(f: RtcmV3, buf: array<byte>, off: nat, len: nat)
      requires Valid() && target == ToRtcm(f) && buf !in Repr && off + len <= buf.Length
      modifies Repr
      ensures Written(buf, off, len)
      decreases rank, 0, 0
    {
      hide Run, Feed, FilterBase.Valid, RtcmV3.Valid, RtcmV3.Snapshot;
      RunOneMore(Rtcm3, writes, buf[off..off + len]);
      var _ := f.Write(buf, off, len);
      writes := writes + [buf[off..off + len]];
    }

    method WriteUbx(f: UbxFilter, buf: array<byte>, off: nat, len: nat)
      requires Valid() && target == ToUbx(f) && buf !in Repr && off + len <= buf.Length
      modifies Repr
      ensures Written(buf, off, len)
      decreases rank, 0, 0
    {
      hide Run, Feed, FilterBase.Valid, UbxFilter.Valid, UbxFilter.Snapshot;
      RunOneMore(Ubx, writes, buf[off..off + len]);
      var _ := f.Write(buf, off, len);
      writes := writes + [buf[off..off + len]];
    }

    method WriteNmea(f: NmeaFilter, buf: array<byte>, off: nat, len: nat)
      requires Valid() && target == ToNmea(f) && buf !in Repr && off + len <= buf.Length
      modifies Repr
      ensures Written(buf, off, len)
      decreases rank, 0, 0
    {
      hide Run, Feed, FilterBase.Valid, NmeaFilter.Valid, NmeaFilter.Snapshot;
      RunOneMore(Nmea0183, writes, buf[off..off + len]);
      var _ := f.Write(buf, off, len);
      writes := writes + [buf[off..off + len]];
    }
  }

  /** The part every filter inherits: counters, `next` and `rest`. */
  class FilterBase {
    const cnt: StatCounters
    var next: Endpoint?
    var rest: Endpoint?
    /** Everything put out so far. */
    ghost var events: seq<Event>
    /** How often "badcrc" was counted. */
    ghost var bad: nat
    /** What the endpoints had received, and how many events there were, when they were wired. */
    ghost var nextBefore: seq<seq<byte>>
    ghost var nextSince: nat
    ghost var restBefore: seq<byte>
    ghost var restSince: nat
    /** The route that starts at `rest`, when `rest` has received everything this filter let through. */
    ghost var below: Route
    ghost var Repr: set<object>
    ghost var rank: nat

    ghost predicate Unwired()
      reads this
    {
      events == [] && next == null && rest == null && below == NOWHERE
    }

    /** The `next` that has received every frame so far. */
    ghost function OwnPort(): Option<Port>
      reads this
    {
      if next != null && nextSince == 0 then Some(Port(next, nextBefore)) else None
    }

    /** The route of a recogniser for `p` with these endpoints. */
    ghost function Through(p: Protocol): Route
      reads this
    {
      Line([p] + below.chain, [OwnPort()] + below.ports, below.last)
    }

    /** The wiring is as it was. */
    twostate predicate Kept()
      reads this
    {
      && Repr == old(Repr) && rank == old(rank) && below == old(below)
      && next == old(next) && nextBefore == old(nextBefore) && nextSince == old(nextSince)
      && rest == old(rest) && restBefore == old(restBefore) && restSince == old(restSince)
    }

    ghost predicate Counted()
      reads this`events, this`bad, cnt
    {
      && cnt.Value("next") == Totals(events).0
      && cnt.Value("pack") == Totals(events).1
      && cnt.Value("rest") == Totals(events).2
      && cnt.Value("badcrc") == bad
    }

    ghost predicate Owned(e: Endpoint)
      reads this, e
    {
      && e in Repr && e.Repr <= Repr && e.rank < rank
      && this !in e.Repr && cnt !in e.Repr
    }

    /**
     Since they were wired `next` has received exactly the frames, one write each, and `rest` exactly the
     other bytes.
     */
    ghost predicate Linked()
      reads this, Repr
      ensures Linked() ==> this in Repr
      decreases rank, 0
    {
      && this in Repr && cnt in Repr
      && (next != null ==>
            && next in Repr && Owned(next) && next.Valid()
            && nextSince <= |events| && next.writes == nextBefore + FramesOf(events[nextSince..]))
      && (rest != null ==>
            && rest in Repr && Owned(rest) && rest.Valid()
            && restSince <= |events| && Flatten(rest.writes) == restBefore + RestOf(events[restSince..]))
      && (next != null && rest != null ==> next.Repr !! rest.Repr)
      && below == (if rest != null && restSince == 0 && restBefore == [] then rest.route else NOWHERE)
    }

    ghost predicate Valid()
      reads this, Repr
      ensures Valid() ==> this in Repr && Linked()
      decreases rank, 1
    {
      Linked() && Counted()
    }

    constructor ()
      ensures Valid() && fresh(Repr)
      ensures Unwired() && bad == 0
    {
      cnt := new StatCounters();
      next, rest := null, null;
      events, bad := [], 0;
      nextBefore, nextSince, restBefore, restSince, below := [], 0, [], 0, NOWHERE;
      rank := 0;
      new;
      hide Totals;
      TotalsNone();
      Repr := {this, cnt};
    }

    /** An endpoint the filter can be wired to: no part of the filter itself is behind it. */
    ghost predicate CanReach(e: Endpoint?)
      reads this, e, if e != null then e.Repr else {}
    {
      e != null ==> e.Valid() && this !in e.Repr && cnt !in e.Repr
    }

    /** The filter takes over what is behind `e`. */
    method Own(e: Endpoint)
      requires Valid() && CanReach(e)
      modifies this`Repr, this`rank
      ensures Valid() && Repr == old(Repr) + e.Repr && Owned(e) && e.Valid()
    {
      hide Counted, FramesOf, RestOf, Flatten, Endpoint.Valid;
      Repr := Repr + e.Repr;
      rank := if rank <= e.rank then e.rank + 1 else rank;
    }

    /** `Pipe::chain`: frames go to `e` from now on, or nowhere. */
    method ChainTo(e: Endpoint?)
      requires Valid() && CanReach(e) && (e != null && rest != null ==> e.Repr !! rest.Repr)
      modifies this
      ensures Valid() && Repr == old(Repr) + (if e != null then e.Repr else {})
      ensures next == e && nextSince == |events| && nextBefore == (if e != null then e.writes else [])
      ensures rest == old(rest) && restSince == old(restSince) && restBefore == old(restBefore) && below == old(below)
      ensures events == old(events) && bad == old(bad)
    {
      hide Counted, FramesOf, RestOf, Flatten, Endpoint.Valid;
      if e != null {
        Own(e);
        NothingSpelt();
        assert events[|events|..] == [] && e.writes + [] == e.writes;
      }
      next, nextSince, nextBefore := e, |events|, if e != null then e.writes else [];
    }

    /** `Filter::rest`: everything that is no frame goes to `e` from now on, or nowhere. */
    method RestTo(e: Endpoint?)
      requires Valid() && CanReach(e) && (e != null && next != null ==> e.Repr !! next.Repr)
      modifies this
      ensures Valid() && Repr == old(Repr) + (if e != null then e.Repr else {})
      ensures rest == e && restSince == |events| && restBefore == (if e != null then Flatten(e.writes) else [])
      ensures below == if e != null && events == [] && restBefore == [] then e.route else NOWHERE
      ensures next == old(next) && nextSince == old(nextSince) && nextBefore == old(nextBefore)
      ensures events == old(events) && bad == old(bad)
    {
      hide Counted, FramesOf, RestOf, Flatten, Endpoint.Valid;
      if e != null {
        Own(e);
        LinkRest(e);
      } else {
        rest, restSince, restBefore, below := null, |events|, [], NOWHERE;
      }
    }

    method LinkRest(e: Endpoint)
      requires Valid() && Owned(e) && e.Valid() && (next != null ==> e.Repr !! next.Repr)
      modifies this`rest, this`restSince, this`restBefore, this`below
      ensures Valid() && rest == e && restSince == |events| && restBefore == Flatten(e.writes)
      ensures below == if events == [] && restBefore == [] then e.route else NOWHERE
    {
      hide Counted, FramesOf, RestOf, Flatten, Endpoint.Valid;
      NothingSpelt();
      rest, restSince, restBefore := e, |events|, Flatten(e.writes);
      below := if events == [] && restBefore == [] then e.route else NOWHERE;
      assert events[restSince..] == [] && restBefore + [] == restBefore;
    }

    /** No counter besides these has changed. */
    twostate predicate OnlyCounted(names: set<string>)
      reads cnt
    {
      forall name :: name !in names ==> cnt.Value(name) == old(cnt.Value(name))
    }

    method CountNext(len: nat)
      modifies cnt
      ensures cnt.Value("next") == old(cnt.Value("next")) + len
      ensures cnt.Value("pack") == old(cnt.Value("pack")) + 1
      ensures cnt.Value("rest") == old(cnt.Value("rest"))
      ensures cnt.Value("badcrc") == old(cnt.Value("badcrc"))
      ensures OnlyCounted({"next", "pack"})
    {
      cnt.Add("next", len);
      cnt.Add("pack", 1);
    }

    method CountRest(len: nat)
      modifies cnt
      ensures cnt.Value("next") == old(cnt.Value("next"))
      ensures cnt.Value("pack") == old(cnt.Value("pack"))
      ensures cnt.Value("rest") == old(cnt.Value("rest")) + len
      ensures cnt.Value("badcrc") == old(cnt.Value("badcrc"))
      ensures OnlyCounted({"rest"})
    {
      cnt.Add("rest", len);
    }

    /** `Pipe::write_next`. */
    method SendNext(buf: array<byte>, off: nat, len: nat)
      requires Linked() && buf !in Repr && off + len <= buf.Length
      modifies this`events, if next != null then next.Repr else {}
      ensures Linked() && Kept()
      ensures events == old(events) + [ToNext(buf[off..off + len])]
      decreases rank, 0, 0
    {
      hide FramesOf, RestOf, Flatten, Endpoint.Valid;
      ghost var f := buf[off..off + len];
      if next != null {
        FrameSince(events, nextSince, f);
        next.Write(buf, off, len);
      }
      if rest != null {
        FrameSince(events, restSince, f);
      }
      events := events + [ToNext(f)];
    }

    /** `Filter::write_rest`. */
    method SendRest(buf: array<byte>, off: nat, len: nat)
      requires Linked() && buf !in Repr && off + len <= buf.Length
      modifies this`events, if rest != null then rest.Repr else {}
      ensures Linked() && Kept()
      ensures events == old(events) + AsRest(buf[off..off + len])
      decreases rank, 0, 0
    {
      hide FramesOf, RestOf, Flatten, AsRest, Endpoint.Valid;
      ghost var s := buf[off..off + len];
      if next != null {
        RestSince(events, nextSince, s);
      }
      if rest != null {
        RestSince(events, restSince, s);
        FlattenOneMore(rest.writes, s);
        rest.Write(buf, off, len);
      }
      events := events + AsRest(s);
    }

    /** `FilterBase::write_next`. */
    method WriteNext(buf: array<byte>, off: nat, len: nat)
      requires Valid() && buf !in Repr && off + len <= buf.Length
      modifies Repr
      ensures Valid() && Kept()
      ensures events == old(events) + [ToNext(buf[off..off + len])] && bad == old(bad)
      ensures OnlyCounted({"next", "pack"})
      decreases rank, 0, 1
    {
      hide Totals, FramesOf, RestOf, Flatten, Endpoint.Valid;
      CountNext(len);
      TotalsNext(events, buf[off..off + len]);
      SendNext(buf, off, len);
    }

    /** `FilterBase::write_rest`. */
    method WriteRest(buf: array<byte>, off: nat, len: nat)
      requires Valid() && buf !in Repr && off + len <= buf.Length
      modifies Repr
      ensures Valid() && Kept()
      ensures events == old(events) + AsRest(buf[off..off + len]) && bad == old(bad)
      ensures OnlyCounted({"rest"})
      decreases rank, 0, 1
    {
      hide Totals, FramesOf, RestOf, Flatten, AsRest, Endpoint.Valid;
      CountRest(len);
      TotalsRest(events, buf[off..off + len]);
      SendRest(buf, off, len);
    }

    /** Any counter besides the four that mirror the output. */
    method CountOther(name: string)
      requires Valid() && name !in {"next", "pack", "rest", "badcrc"}
      modifies cnt
      ensures Valid() && cnt.Value(name) == old(cnt.Value(name)) + 1 && OnlyCounted({name})
    {
      cnt.Add(name, 1);
    }

    method CountBad()
      requires Valid()
      modifies Repr
      ensures Valid() && Kept()
      ensures bad == old(bad) + 1 && events == old(events)
    {
      cnt.Add("badcrc", 1);
      bad := bad + 1;
    }
  }

  // ---------- MAVLink 1 ----------

  datatype MavlinkState = Before | Len | Load

  class MavlinkV1 {
    const base: FilterBase
    const crcExtra: Option<CrcTable>
    const packet: array<byte>
    var state: MavlinkState
    var packetLen: nat

    /** The protocol this filter recognises, for its table of extra bytes. */
    function Proto(): Protocol {
      Mavlink1(crcExtra)
    }

    ghost predicate Valid()
      reads this, packet, base, base.Repr
      ensures Valid() ==> base.Valid()
      decreases base.rank, 2
    {
      && base.Valid() && this !in base.Repr && packet !in base.Repr
      && packet.Length == 263
      && (state.Len? ==> packet[0] == Proto().Preamble())
      && (state.Load? ==> packet[0] == Proto().Preamble() && 2 <= packetLen < 8 + Val(packet[1]))
    }

    /** The partial frame: `packetLen` is stale in state LEN, where one byte is held. */
    ghost function Held(): seq<byte>
      reads this, packet
    {
      match state
      case Before => []
      case Len => Prefix(packet, 1)
      case Load => Prefix(packet, packetLen)
    }

    ghost function Snapshot(): Outcome
      reads this, packet, base
    {
      Outcome(base.events, Held(), base.bad)
    }

    constructor (crcExtra: Option<CrcTable>)
      ensures Valid() && fresh(base) && fresh(base.Repr) && fresh(packet)
      ensures Snapshot() == FRESH
      ensures this.crcExtra == crcExtra && base.Unwired()
    {
      base := new FilterBase();
      this.crcExtra := crcExtra;
      packet := new byte[263];
      state := MavlinkState.Before;
      packetLen := 0;
    }

    /** `valid_checksum`, for a complete candidate in the buffer. */
    method ValidChecksum() returns (ok: bool)
      requires packet.Length == 263 && packetLen == 8 + Val(packet[1])
      ensures ok == MavlinkChecks(crcExtra, packet[..packetLen])
    {
      hide X25.Accumulate, X25.Word, Val;
      var crc := X25.Calculate(packet, 1, Val(packet[1]) + 5);
      assert packet[..packetLen][1..packetLen - 2] == packet[1..packetLen - 2];
      if crcExtra.Some? {
        crc := X25.Accumulate(crc, crcExtra.value[Val(packet[5])]);
      }
      ok := X25.Word(packet[packetLen - 2], packet[packetLen - 1]) == crc;
    }

    /** What is held is an unfinished candidate. */
    lemma HeldWaiting()
      requires Valid()
      ensures Held() != [] ==> Judge(Proto(), Held()) == Wait
    {
      hide Checks, Val;
      if state.Load? {
        assert Held()[0] == packet[0] && Held()[1] == packet[1];
      }
    }

    lemma Settled()
      requires Valid()
      ensures Feed(Proto(), Snapshot(), []) == Snapshot()
    {
      hide Feed, Judge;
      HeldWaiting();
      FeedEmpty(Proto(), Snapshot());
    }

    /** A slice that may be written to the filter: of its own packet only what lies beyond the held bytes. */
    ghost predicate Readable(buf: array<byte>, ptr: nat, len: nat)
      reads this, packet, base
    {
      ptr + len <= buf.Length && buf !in base.Repr && (buf == packet ==> |Held()| < ptr)
    }

    /** `n` bytes at `ptr` went through the filter, and the buffer is unchanged beyond them. */
    twostate predicate Fed(buf: array<byte>, ptr: nat, n: nat)
      requires ptr + n <= buf.Length
      reads this, packet, base, base.Repr, buf
    {
      && Valid() && base.Kept()
      && Snapshot() == Feed(Proto(), old(Snapshot()), old(buf[ptr..ptr + n]))
      && |Held()| <= old(|Held()|) + n
      && buf[ptr + n..] == old(buf[ptr + n..])
    }

    /** A preamble was found: hold it. */
    method Start()
      requires Valid() && state.Before?
      modifies this`state, packet
      ensures Valid() && Held() == [Proto().Preamble()]
      ensures packet[1..] == old(packet[1..])
    {
      state := MavlinkState.Len;
      packet[0] := Proto().Preamble();
      assert packet[..1] == [Proto().Preamble()];
    }

    /** State BEFORE: find the next preamble. */
    method OnBefore(buf: array<byte>, ptr: nat, len: nat) returns (n: nat)
      requires Valid() && state.Before? && 0 < len && Readable(buf, ptr, len)
      modifies this`state, packet, base.Repr
      ensures 0 < n <= len && Fed(buf, ptr, n)
      decreases base.rank, |Held()| + len, 2
    {
      hide Feed, AsRest, Judge, IndexOf, FilterBase.Valid, FilterBase.Linked;
      var stx := MemChr(buf, ptr, Proto().Preamble(), len);
      ghost var junk := buf[ptr..stx];
      if stx == ptr + len {
        FeedJunkOnly(Proto(), base.events, base.bad, junk);
        base.WriteRest(buf, ptr, len);
        n := len;
      } else {
        FeedPreamble(Proto(), base.events, base.bad, junk);
        assert buf[ptr..stx + 1] == junk + [Proto().Preamble()];
        if stx != ptr {
          base.WriteRest(buf, ptr, stx - ptr);
        } else {
          assert base.events + AsRest(junk) == base.events;
        }
        Start();
        n := stx - ptr + 1;
        if buf == packet {
          assert packet[ptr + n..] == packet[1..][ptr + n - 1..];
        }
      }
    }

    /** State LEN: the length byte. */
    method OnLen(buf: array<byte>, ptr: nat, len: nat) returns (n: nat)
      requires Valid() && state.Len? && 0 < len && Readable(buf, ptr, len)
      modifies this`state, this`packetLen, packet
      ensures n == 1 && Fed(buf, ptr, n)
    {
      hide Feed, Judge, Val, FilterBase.Valid, FilterBase.Linked;
      ghost var o, b := Snapshot(), buf[ptr];
      packet[1] := buf[ptr];
      state := MavlinkState.Load;
      packetLen := 2;
      n := 1;
      assert Held() == o.held + [b];
      HeldWaiting();
      FeedWait(Proto(), o, [b]);
      assert old(buf[ptr..ptr + 1]) == [b];
    }

    /** Bytes are appended to the packet; those in it stay, and those of the buffer beyond them. */
    method Fill(buf: array<byte>, ptr: nat, n: nat)
      requires Valid() && state.Load? && Readable(buf, ptr, n) && packetLen + n <= packet.Length
      modifies this`packetLen, packet
      ensures packetLen == old(packetLen) + n && packet[..packetLen] == old(Held() + buf[ptr..ptr + n])
      ensures packet[0] == old(packet[0]) && packet[1] == old(packet[1])
      ensures buf[ptr + n..] == old(buf[ptr + n..])
    {
      hide FilterBase.Valid, FilterBase.Linked, Val, RtcmPayload, UbxPayload;
      ghost var held, bytes := Held(), buf[ptr..ptr + n];
      MemMove(packet, packetLen, buf, ptr, n);
      packetLen := packetLen + n;
      assert packet[..packetLen] == held + bytes;
      assert forall k :: 0 <= k < |held| ==> packet[k] == (held + bytes)[k] == held[k];
    }

    /** State LOAD: fill the packet; a complete candidate is judged at once. */
    method OnLoad(buf: array<byte>, ptr: nat, len: nat) returns (n: nat)
      requires Valid() && state.Load? && 0 < len && Readable(buf, ptr, len)
      modifies this`state, this`packetLen, packet, base.Repr
      ensures 0 < n <= len && Fed(buf, ptr, n)
      decreases base.rank, |Held()| + len, 2
    {
      hide Feed, Judge, Val, FilterBase.Valid, FilterBase.Linked;
      ghost var o := Snapshot();
      var size := 8 + Val(packet[1]);
      n := if size - packetLen < len then size - packetLen else len;
      ghost var bytes, filled := buf[ptr..ptr + n], packetLen + n;
      Fill(buf, ptr, n);
      if packetLen == size {
        FeedMove(Proto(), o.events, o.bad, o.held, bytes, packet[..packetLen], []);
        assert o.held + bytes == packet[..packetLen] + [];
        Complete();
        if buf == packet {
          assert packet[ptr + n..] == packet[filled..][ptr + n - filled..];
        }
      } else {
        HeldWaiting();
        FeedWait(Proto(), o, bytes);
      }
    }

    lemma WholeCandidate()
      requires packet.Length == 263
      requires packet[0] == Proto().Preamble() && packetLen == 8 + Val(packet[1])
      ensures var f := packet[..packetLen];
              Judge(Proto(), f) == if MavlinkChecks(crcExtra, f) then Frame(|f|) else Bad(|f|)
    {
      hide Val, MavlinkChecks;
      JudgeWhole(Proto(), packet[..packetLen]);
    }

    /** The packet is complete: to next, or one byte to rest and the others through `write` again. */
    method Complete()
      requires base.Valid() && this !in base.Repr && packet !in base.Repr && packet.Length == 263
      requires packet[0] == Proto().Preamble() && packetLen == 8 + Val(packet[1])
      modifies this`state, this`packetLen, packet, base.Repr
      ensures Valid() && base.Kept()
      ensures Snapshot() == Feed(Proto(), old(Outcome(base.events, packet[..packetLen], base.bad)), [])
      ensures |Held()| < old(packetLen)
      ensures packet[old(packetLen)..] == old(packet[packetLen..])
      decreases base.rank, packetLen, 1
    {
      hide Feed, Val, Judge, MavlinkChecks, FilterBase.Valid, FilterBase.Linked;
      ghost var f := packet[..packetLen];
      WholeCandidate();
      state := MavlinkState.Before;
      var ok := ValidChecksum();
      if ok {
        FeedFrameDone(Proto(), base.events, base.bad, f);
        base.WriteNext(packet, 0, packetLen);
        assert packet[0..packetLen] == f;
      } else {
        FeedBadDone(Proto(), base.events, base.bad, f);
        base.CountBad();
        assert packet[1..packetLen] == f[1..];
        Resync();
      }
    }

    /** After a failed checksum: the first byte to rest, the others from the packet through `write` again. */
    method Resync()
      requires Valid() && state.Before?
      requires 0 < packetLen <= packet.Length
      modifies this`state, this`packetLen, packet, base.Repr
      ensures Valid() && base.Kept()
      ensures Snapshot() == Feed(Proto(), old(Outcome(base.events + [ToRest(packet[0])], [], base.bad)),
                                 old(packet[1..packetLen]))
      ensures |Held()| < old(packetLen)
      ensures packet[old(packetLen)..] == old(packet[packetLen..])
      decreases base.rank, packetLen, 0
    {
      hide Feed, Judge, AsRest, FilterBase.Valid, FilterBase.Linked;
      base.WriteRest(packet, 0, 1);
      AsRestOne(packet[0..1]);
      var _ := Write(packet, 1, packetLen - 1);
    }

    /** One turn of the loop in `write`. */
    method Step(buf: array<byte>, ptr: nat, len: nat) returns (n: nat)
      requires Valid() && 0 < len && Readable(buf, ptr, len)
      modifies this`state, this`packetLen, packet, base.Repr
      ensures Valid() && base.Kept()
      ensures 0 < n <= len
      ensures Snapshot() == Feed(Proto(), old(Snapshot()), old(buf[ptr..])[..n])
      ensures |Held()| <= old(|Held()|) + n
      ensures buf[ptr + n..] == old(buf[ptr..])[n..]
      decreases base.rank, |Held()| + len, 3
    {
      hide Feed, Judge, Valid, Held, Snapshot, FilterBase.Valid, FilterBase.Linked;
      match state {
        case Before => n := OnBefore(buf, ptr, len);
        case Len => n := OnLen(buf, ptr, len);
        case Load => n := OnLoad(buf, ptr, len);
      }
      assert old(buf[ptr..])[..n] == old(buf[ptr..ptr + n]);
    }

    /**
     One call of `write`, on `buf[off..off + len]`. The buffer may be the filter's own `packet`: then the
     slice must start beyond the held bytes, and `packet` stays as it was from the end of the slice on.
     */
    method Write(buf: array<byte>, off: nat, len: nat) returns (ret: nat)
      requires Valid() && Readable(buf, off, len)
      modifies this`state, this`packetLen, packet, base.Repr
      ensures ret == len && Fed(buf, off, len)
      decreases base.rank, |Held()| + len, 4
    {
      hide Feed, Judge, Valid, Held, Snapshot, FilterBase.Valid, FilterBase.Linked;
      ret := len;
      ghost var o, tail := Snapshot(), buf[off..];
      var i := 0;
      Settled();
      while i < len
        invariant i <= len
        invariant Valid() && base.Kept()
        invariant |Held()| <= old(|Held()|) + i
        invariant buf[off + i..] == tail[i..]
        invariant Snapshot() == Feed(Proto(), o, tail[..i])
      {
        ghost var before, now := Snapshot(), buf[off + i..];
        var n := Step(buf, off + i, len - i);
        FeedTurn(Proto(), o, before, Snapshot(), tail, now, i, n);
        i := i + n;
      }
      assert tail[..len] == old(buf[off..off + len]);
    }
  }

  // ---------- RTCM 3 ----------

  datatype RtcmState = Before | Header | Load

  class RtcmV3 {
    const base: FilterBase
    const packet: array<byte>
    var state: RtcmState
    var payloadLen: nat
    var packetLen: nat

    ghost predicate Valid()
      reads this, packet, base, base.Repr
      ensures Valid() ==> base.Valid()
      decreases base.rank, 2
    {
      && base.Valid() && this !in base.Repr && packet !in base.Repr
      && packet.Length == 0x3ff + 6
      && (!state.Before? ==> packet[0] == Rtcm3.Preamble())
      && (state.Header? ==> 1 <= packetLen < 3)
      && (state.Load? ==> payloadLen == RtcmPayload(packet[1], packet[2]) && 3 <= packetLen < 6 + payloadLen)
    }

    /** The partial frame; the lengths are stale in state BEFORE. */
    ghost function Held(): seq<byte>
      reads this, packet
    {
      if state.Before? then [] else Prefix(packet, packetLen)
    }

    ghost function Snapshot(): Outcome
      reads this, packet, base
    {
      Outcome(base.events, Held(), base.bad)
    }

    constructor ()
      ensures Valid() && fresh(base) && fresh(base.Repr) && fresh(packet)
      ensures Snapshot() == FRESH && base.Unwired()
    {
      base := new FilterBase();
      packet := new byte[0x3ff + 6];
      state := RtcmState.Before;
      payloadLen, packetLen := 0, 0;
    }

    /** `valid_checksum`, for a complete candidate in the buffer. */
    method ValidChecksum() returns (ok: bool)
      requires packet.Length == 0x3ff + 6 && packetLen == 6 + payloadLen <= packet.Length
      ensures ok == RtcmChecks(packet[..packetLen])
    {
      hide Crc24Q.CrcFrom, Crc24Q.Joined;
      var n := 3 + payloadLen;
      var crc1 := Crc24Q.Joined(packet[n], packet[n + 1], packet[n + 2]);
      var crc2 := Crc24Q.Calculate(packet, 0, payloadLen + 3);
      assert packet[..packetLen][..n] == packet[0..n];
      ok := crc1 == crc2;
    }

    /** What is held is an unfinished candidate. */
    lemma HeldWaiting()
      requires Valid()
      ensures Held() != [] ==> Judge(Rtcm3, Held()) == Wait
    {
      hide Checks, RtcmPayload;
      if state.Load? {
        assert Held()[0] == packet[0] && Held()[1] == packet[1] && Held()[2] == packet[2];
      }
    }

    lemma Settled()
      requires Valid()
      ensures Feed(Rtcm3, Snapshot(), []) == Snapshot()
    {
      hide Feed, Judge;
      HeldWaiting();
      FeedEmpty(Rtcm3, Snapshot());
    }

    /** A slice that may be written to the filter: of its own packet only what lies beyond the held bytes. */
    ghost predicate Readable(buf: array<byte>, ptr: nat, len: nat)
      reads this, packet, base
    {
      ptr + len <= buf.Length && buf !in base.Repr && (buf == packet ==> |Held()| < ptr)
    }

    /** `n` bytes at `ptr` went through the filter, and the buffer is unchanged beyond them. */
    twostate predicate Fed(buf: array<byte>, ptr: nat, n: nat)
      requires ptr + n <= buf.Length
      reads this, packet, base, base.Repr, buf
    {
      && Valid() && base.Kept()
      && Snapshot() == Feed(Rtcm3, old(Snapshot()), old(buf[ptr..ptr + n]))
      && |Held()| <= old(|Held()|) + n
      && buf[ptr + n..] == old(buf[ptr + n..])
    }

    /** A preamble was found: hold it. */
    method Start()
      requires Valid() && state.Before?
      modifies this`state, this`packetLen, packet
      ensures Valid() && Held() == [Rtcm3.Preamble()]
      ensures packet[1..] == old(packet[1..])
    {
      state := RtcmState.Header;
      packet[0] := Rtcm3.Preamble();
      packetLen := 1;
      assert packet[..1] == [Rtcm3.Preamble()];
    }

    /** State BEFORE: find the next preamble. */
    method OnBefore(buf: array<byte>, ptr: nat, len: nat) returns (n: nat)
      requires Valid() && state.Before? && 0 < len && Readable(buf, ptr, len)
      modifies this`state, this`packetLen, packet, base.Repr
      ensures 0 < n <= len && Fed(buf, ptr, n)
      decreases base.rank, |Held()| + len, 2
    {
      hide Feed, AsRest, Judge, IndexOf, FilterBase.Valid, FilterBase.Linked;
      var preamble := MemChr(buf, ptr, Rtcm3.Preamble(), len);
      ghost var junk := buf[ptr..preamble];
      if preamble == ptr + len {
        FeedJunkOnly(Rtcm3, base.events, base.bad, junk);
        base.WriteRest(buf, ptr, len);
        n := len;
      } else {
        FeedPreamble(Rtcm3, base.events, base.bad, junk);
        assert buf[ptr..preamble + 1] == junk + [Rtcm3.Preamble()];
        if preamble != ptr {
          base.WriteRest(buf, ptr, preamble - ptr);
        } else {
          assert base.events + AsRest(junk) == base.events;
        }
        Start();
        n := preamble - ptr + 1;
        if buf == packet {
          assert packet[ptr + n..] == packet[1..][ptr + n - 1..];
        }
      }
    }

    /** Bytes are appended to the packet; those in it stay, and those of the buffer beyond them. */
    method Fill(buf: array<byte>, ptr: nat, n: nat)
      requires Valid() && (state.Header? || state.Load?) && Readable(buf, ptr, n) && packetLen + n <= packet.Length
      modifies this`packetLen, packet
      ensures packetLen == old(packetLen) + n && packet[..packetLen] == old(Held() + buf[ptr..ptr + n])
      ensures packet[0] == old(packet[0])
      ensures old(state).Load? ==> packet[1] == old(packet[1]) && packet[2] == old(packet[2])
      ensures buf[ptr + n..] == old(buf[ptr + n..])
    {
      hide FilterBase.Valid, FilterBase.Linked, Val, RtcmPayload, UbxPayload;
      ghost var held, bytes := Held(), buf[ptr..ptr + n];
      MemMove(packet, packetLen, buf, ptr, n);
      packetLen := packetLen + n;
      assert packet[..packetLen] == held + bytes;
      assert forall k :: 0 <= k < |held| ==> packet[k] == (held + bytes)[k] == held[k];
    }

    /** State HEADER: preamble and length. */
    method OnHeader(buf: array<byte>, ptr: nat, len: nat) returns (n: nat)
      requires Valid() && state.Header? && 0 < len && Readable(buf, ptr, len)
      modifies this`state, this`packetLen, this`payloadLen, packet
      ensures 0 < n <= len && Fed(buf, ptr, n)
    {
      hide Feed, Judge, RtcmPayload, FilterBase.Valid, FilterBase.Linked;
      ghost var o := Snapshot();
      n := if 3 - packetLen < len then 3 - packetLen else len;
      ghost var bytes := buf[ptr..ptr + n];
      Fill(buf, ptr, n);
      if packetLen == 3 {
        state := RtcmState.Load;
        payloadLen := RtcmPayload(packet[1], packet[2]);
      }
      assert Held() == o.held + bytes;
      HeldWaiting();
      FeedWait(Rtcm3, o, bytes);
    }

    /** State LOAD: fill the packet; a complete candidate is judged at once. */
    method OnLoad(buf: array<byte>, ptr: nat, len: nat) returns (n: nat)
      requires Valid() && state.Load? && 0 < len && Readable(buf, ptr, len)
      modifies this`state, this`packetLen, this`payloadLen, packet, base.Repr
      ensures 0 < n <= len && Fed(buf, ptr, n)
      decreases base.rank, |Held()| + len, 2
    {
      hide Feed, Judge, RtcmPayload, FilterBase.Valid, FilterBase.Linked;
      ghost var o := Snapshot();
      var size := 6 + payloadLen;
      n := if size - packetLen < len then size - packetLen else len;
      ghost var bytes, filled := buf[ptr..ptr + n], packetLen + n;
      Fill(buf, ptr, n);
      if packetLen == size {
        FeedMove(Rtcm3, o.events, o.bad, o.held, bytes, packet[..packetLen], []);
        assert o.held + bytes == packet[..packetLen] + [];
        Complete();
        if buf == packet {
          assert packet[ptr + n..] == packet[filled..][ptr + n - filled..];
        }
      } else {
        HeldWaiting();
        FeedWait(Rtcm3, o, bytes);
      }
    }

    lemma WholeCandidate()
      requires packet.Length == 0x3ff + 6
      requires packet[0] == Rtcm3.Preamble() && payloadLen == RtcmPayload(packet[1], packet[2])
      requires packetLen == 6 + payloadLen
      ensures var f := packet[..packetLen];
              Judge(Rtcm3, f) == if RtcmChecks(f) then Frame(|f|) else Bad(|f|)
    {
      hide RtcmPayload, RtcmChecks;
      JudgeWhole(Rtcm3, packet[..packetLen]);
    }

    /** The packet is complete: to next, or one byte to rest and the others through `write` again. */
    method Complete()
      requires base.Valid() && this !in base.Repr && packet !in base.Repr && packet.Length == 0x3ff + 6
      requires packet[0] == Rtcm3.Preamble() && payloadLen == RtcmPayload(packet[1], packet[2])
      requires packetLen == 6 + payloadLen
      modifies this`state, this`packetLen, this`payloadLen, packet, base.Repr
      ensures Valid() && base.Kept()
      ensures Snapshot() == Feed(Rtcm3, old(Outcome(base.events, packet[..packetLen], base.bad)), [])
      ensures |Held()| < old(packetLen)
      ensures packet[old(packetLen)..] == old(packet[packetLen..])
      decreases base.rank, packetLen, 1
    {
      hide Feed, RtcmPayload, Judge, RtcmChecks, FilterBase.Valid, FilterBase.Linked;
      ghost var f := packet[..packetLen];
      WholeCandidate();
      state := RtcmState.Before;
      var ok := ValidChecksum();
      if ok {
        FeedFrameDone(Rtcm3, base.events, base.bad, f);
        base.WriteNext(packet, 0, packetLen);
        assert packet[0..packetLen] == f;
      } else {
        FeedBadDone(Rtcm3, base.events, base.bad, f);
        base.CountBad();
        assert packet[1..packetLen] == f[1..];
        Resync();
      }
    }

    /** After a failed checksum: the first byte to rest, the others from the packet through `write` again. */
    method Resync()
      requires Valid() && state.Before?
      requires 0 < packetLen <= packet.Length
      modifies this`state, this`packetLen, this`payloadLen, packet, base.Repr
      ensures Valid() && base.Kept()
      ensures Snapshot() == Feed(Rtcm3, old(Outcome(base.events + [ToRest(packet[0])], [], base.bad)),
                                 old(packet[1..packetLen]))
      ensures |Held()| < old(packetLen)
      ensures packet[old(packetLen)..] == old(packet[packetLen..])
      decreases base.rank, packetLen, 0
    {
      hide Feed, Judge, AsRest, FilterBase.Valid, FilterBase.Linked;
      base.WriteRest(packet, 0, 1);
      AsRestOne(packet[0..1]);
      var _ := Write(packet, 1, packetLen - 1);
    }

    /** One turn of the loop in `write`. */
    method Step(buf: array<byte>, ptr: nat, len: nat) returns (n: nat)
      requires Valid() && 0 < len && Readable(buf, ptr, len)
      modifies this`state, this`packetLen, this`payloadLen, packet, base.Repr
      ensures Valid() && base.Kept()
      ensures 0 < n <= len
      ensures Snapshot() == Feed(Rtcm3, old(Snapshot()), old(buf[ptr..])[..n])
      ensures |Held()| <= old(|Held()|) + n
      ensures buf[ptr + n..] == old(buf[ptr..])[n..]
      decreases base.rank, |Held()| + len, 3
    {
      hide Feed, Judge, Valid, Held, Snapshot, FilterBase.Valid, FilterBase.Linked;
      match state {
        case Before => n := OnBefore(buf, ptr, len);
        case Header => n := OnHeader(buf, ptr, len);
        case Load => n := OnLoad(buf, ptr, len);
      }
      assert old(buf[ptr..])[..n] == old(buf[ptr..ptr + n]);
    }

    /**
     One call of `write`, on `buf[off..off + len]`. The buffer may be the filter's own `packet`: then the
     slice must start beyond the held bytes, and `packet` stays as it was from the end of the slice on.
     */
    method Write(buf: array<byte>, off: nat, len: nat) returns (ret: nat)
      requires Valid() && Readable(buf, off, len)
      modifies this`state, this`packetLen, this`payloadLen, packet, base.Repr
      ensures ret == len && Fed(buf, off, len)
      decreases base.rank, |Held()| + len, 4
    {
      hide Feed, Judge, Valid, Held, Snapshot, FilterBase.Valid, FilterBase.Linked;
      ret := len;
      ghost var o, tail := Snapshot(), buf[off..];
      var i := 0;
      Settled();
      while i < len
        invariant i <= len
        invariant Valid() && base.Kept()
        invariant |Held()| <= old(|Held()|) + i
        invariant buf[off + i..] == tail[i..]
        invariant Snapshot() == Feed(Rtcm3, o, tail[..i])
      {
        ghost var before, now := Snapshot(), buf[off + i..];
        var n := Step(buf, off + i, len - i);
        FeedTurn(Rtcm3, o, before, Snapshot(), tail, now, i, n);
        i := i + n;
      }
      assert tail[..len] == old(buf[off..off + len]);
    }
  }

  // ---------- UBX ----------

  datatype UbxState = Before | Preamble | Header | Load

  class UbxFilter {
    const base: FilterBase
    const packet: array<byte>
    var state: UbxState
    var payloadLen: nat
    var packetLen: nat

    ghost predicate Valid()
      reads this, packet, base, base.Repr
      ensures Valid() ==> base.Valid()
      decreases base.rank, 2
    {
      && base.Valid() && this !in base.Repr && packet !in base.Repr
      && packet.Length == 65535 + 8
      && (!state.Before? ==> packet[0] == Ubx.Preamble())
      && (state.Header? || state.Load? ==> packet[1] == UBX_PREAMBLE1)
      && (state.Header? ==> 2 <= packetLen < 6)
      && (state.Load? ==> payloadLen == UbxPayload(packet[4], packet[5]) && 6 <= packetLen < 8 + payloadLen)
    }

    /** The partial frame: the lengths are stale in state PREAMBLE, where one byte is held. */
    ghost function Held(): seq<byte>
      reads this, packet
    {
      match state
      case Before => []
      case Preamble => Prefix(packet, 1)
      case _ => Prefix(packet, packetLen)
    }

    ghost function Snapshot(): Outcome
      reads this, packet, base
    {
      Outcome(base.events, Held(), base.bad)
    }

    constructor ()
      ensures Valid() && fresh(base) && fresh(base.Repr) && fresh(packet)
      ensures Snapshot() == FRESH && base.Unwired()
    {
      base := new FilterBase();
      packet := new byte[65535 + 8];
      state := UbxState.Before;
      payloadLen, packetLen := 0, 0;
    }

    /** `valid_checksum`, for a complete candidate in the buffer. */
    method ValidChecksum() returns (ok: bool)
      requires packet.Length == 65535 + 8 && packetLen == 8 + payloadLen <= packet.Length
      ensures ok == UbxChecks(packet[..packetLen])
    {
      hide Fletcher.Accumulate;
      var n := 6 + payloadLen;
      var crc1, crc2 := Fletcher.Calculate(packet, 2, payloadLen + 4);
      assert packet[..packetLen][2..n] == packet[2..n];
      ok := crc1 == packet[n] && crc2 == packet[n + 1];
    }

    /** What is held is an unfinished candidate. */
    lemma HeldWaiting()
      requires Valid()
      ensures Held() != [] ==> Judge(Ubx, Held()) == Wait
    {
      hide Checks, UbxPayload;
      if state.Header? || state.Load? {
        assert Held()[0] == packet[0] && Held()[1] == packet[1];
      }
      if state.Load? {
        assert Held()[4] == packet[4] && Held()[5] == packet[5];
      }
    }

    lemma Settled()
      requires Valid()
      ensures Feed(Ubx, Snapshot(), []) == Snapshot()
    {
      hide Feed, Judge;
      HeldWaiting();
      FeedEmpty(Ubx, Snapshot());
    }

    /** A slice that may be written to the filter: of its own packet only what lies beyond the held bytes. */
    ghost predicate Readable(buf: array<byte>, ptr: nat, len: nat)
      reads this, packet, base
    {
      ptr + len <= buf.Length && buf !in base.Repr && (buf == packet ==> |Held()| < ptr)
    }

    /** `n` bytes at `ptr` went through the filter, and the buffer is unchanged beyond them. */
    twostate predicate Fed(buf: array<byte>, ptr: nat, n: nat)
      requires ptr + n <= buf.Length
      reads this, packet, base, base.Repr, buf
    {
      && Valid() && base.Kept()
      && Snapshot() == Feed(Ubx, old(Snapshot()), old(buf[ptr..ptr + n]))
      && |Held()| <= old(|Held()|) + n
      && buf[ptr + n..] == old(buf[ptr + n..])
    }

    /** `n` of the `len` bytes at `ptr` went through the filter, and what is still to do is the same as before. */
    twostate predicate SameTask(buf: array<byte>, ptr: nat, len: nat, n: nat)
      requires n <= len && ptr + len <= buf.Length
      reads this, packet, base, base.Repr, buf
    {
      && Valid() && base.Kept()
      && Feed(Ubx, Snapshot(), old(buf[ptr..ptr + len])[n..]) == Feed(Ubx, old(Snapshot()), old(buf[ptr..ptr + len]))
      && |Held()| <= old(|Held()|) + n && |Held()| - n < old(|Held()|) + n
      && buf[ptr + n..] == old(buf[ptr + n..])
    }

    /** A preamble was found: hold it. */
    method Start()
      requires Valid() && state.Before?
      modifies this`state, packet
      ensures Valid() && Held() == [Ubx.Preamble()]
      ensures packet[1..] == old(packet[1..])
    {
      state := UbxState.Preamble;
      packet[0] := Ubx.Preamble();
      assert packet[..1] == [Ubx.Preamble()];
    }

    /** State BEFORE: find the next preamble. */
    method OnBefore(buf: array<byte>, ptr: nat, len: nat) returns (n: nat)
      requires Valid() && state.Before? && 0 < len && Readable(buf, ptr, len)
      modifies this`state, packet, base.Repr
      ensures 0 < n <= len && Fed(buf, ptr, n)
      decreases base.rank, |Held()| + len, 2
    {
      hide Feed, AsRest, Judge, IndexOf, FilterBase.Valid, FilterBase.Linked;
      var preamble0 := MemChr(buf, ptr, Ubx.Preamble(), len);
      ghost var junk := buf[ptr..preamble0];
      if preamble0 == ptr + len {
        FeedJunkOnly(Ubx, base.events, base.bad, junk);
        base.WriteRest(buf, ptr, len);
        n := len;
      } else {
        FeedPreamble(Ubx, base.events, base.bad, junk);
        assert buf[ptr..preamble0 + 1] == junk + [Ubx.Preamble()];
        if preamble0 != ptr {
          base.WriteRest(buf, ptr, preamble0 - ptr);
        } else {
          assert base.events + AsRest(junk) == base.events;
        }
        Start();
        n := preamble0 - ptr + 1;
        if buf == packet {
          assert packet[ptr + n..] == packet[1..][ptr + n - 1..];
        }
      }
    }

    /** State PREAMBLE: the second byte, or the first was junk; then nothing is consumed. */
    method OnPreamble(buf: array<byte>, ptr: nat, len: nat) returns (n: nat)
      requires Valid() && state.Preamble? && 0 < len && Readable(buf, ptr, len)
      modifies this`state, this`packetLen, this`payloadLen, packet, base.Repr
      ensures n <= len && SameTask(buf, ptr, len, n)
      decreases base.rank, |Held()| + len, 2
    {
      hide Feed, Judge, AsRest, FilterBase.Valid, FilterBase.Linked;
      ghost var o, rem := Snapshot(), buf[ptr..ptr + len];
      assert o.held == [Ubx.Preamble()];
      if buf[ptr] == UBX_PREAMBLE1 {
        packet[1] := UBX_PREAMBLE1;
        n := 1;
        state := UbxState.Header;
        packetLen := 2;
        assert Held() == [Ubx.Preamble(), UBX_PREAMBLE1];
        assert Held() + rem[1..] == o.held + rem;
        FeedMove(Ubx, o.events, o.bad, Held(), rem[1..], o.held, rem);
      } else {
        NotSecondPreamble(rem);
        FeedNoFrame(Ubx, o.events, o.bad, o.held, rem);
        assert o.held[1..] + rem == rem && rem[0..] == rem;
        state := UbxState.Before;
        base.WriteRest(packet, 0, 1);
        AsRestOne(packet[0..1]);
        n := 0;
      }
    }

    static lemma NotSecondPreamble(rem: seq<byte>)
      requires rem != [] && rem[0] != UBX_PREAMBLE1
      ensures Judge(Ubx, [Ubx.Preamble()] + rem) == Junk
    {
      hide Checks, UbxPayload;
    }

    /** Bytes are appended to the packet; those in it stay, and those of the buffer beyond them. */
    method Fill(buf: array<byte>, ptr: nat, n: nat)
      requires Valid() && (state.Header? || state.Load?) && Readable(buf, ptr, n) && packetLen + n <= packet.Length
      modifies this`packetLen, packet
      ensures packetLen == old(packetLen) + n && packet[..packetLen] == old(Held() + buf[ptr..ptr + n])
      ensures packet[0] == old(packet[0]) && packet[1] == old(packet[1])
      ensures old(state).Load? ==> packet[4] == old(packet[4]) && packet[5] == old(packet[5])
      ensures buf[ptr + n..] == old(buf[ptr + n..])
    {
      hide FilterBase.Valid, FilterBase.Linked, Val, RtcmPayload, UbxPayload;
      ghost var held, bytes := Held(), buf[ptr..ptr + n];
      MemMove(packet, packetLen, buf, ptr, n);
      packetLen := packetLen + n;
      assert packet[..packetLen] == held + bytes;
      assert forall k :: 0 <= k < |held| ==> packet[k] == (held + bytes)[k] == held[k];
    }

    /** State HEADER: class, id and length. */
    method OnHeader(buf: array<byte>, ptr: nat, len: nat) returns (n: nat)
      requires Valid() && state.Header? && 0 < len && Readable(buf, ptr, len)
      modifies this`state, this`packetLen, this`payloadLen, packet
      ensures 0 < n <= len && Fed(buf, ptr, n)
    {
      hide Feed, Judge, UbxPayload, FilterBase.Valid, FilterBase.Linked;
      ghost var o := Snapshot();
      n := if 6 - packetLen < len then 6 - packetLen else len;
      ghost var bytes := buf[ptr..ptr + n];
      Fill(buf, ptr, n);
      if packetLen == 6 {
        state := UbxState.Load;
        payloadLen := UbxPayload(packet[4], packet[5]);
      }
      assert Held() == o.held + bytes;
      HeldWaiting();
      FeedWait(Ubx, o, bytes);
    }

    /** State LOAD: fill the packet; a complete candidate is judged at once. */
    method OnLoad(buf: array<byte>, ptr: nat, len: nat) returns (n: nat)
      requires Valid() && state.Load? && 0 < len && Readable(buf, ptr, len)
      modifies this`state, this`packetLen, this`payloadLen, packet, base.Repr
      ensures 0 < n <= len && Fed(buf, ptr, n)
      decreases base.rank, |Held()| + len, 2
    {
      hide Feed, Judge, UbxPayload, FilterBase.Valid, FilterBase.Linked;
      ghost var o := Snapshot();
      var size := 8 + payloadLen;
      n := if size - packetLen < len then size - packetLen else len;
      ghost var bytes, filled := buf[ptr..ptr + n], packetLen + n;
      Fill(buf, ptr, n);
      if packetLen == size {
        FeedMove(Ubx, o.events, o.bad, o.held, bytes, packet[..packetLen], []);
        assert o.held + bytes == packet[..packetLen] + [];
        Complete();
        if buf == packet {
          assert packet[ptr + n..] == packet[filled..][ptr + n - filled..];
        }
      } else {
        HeldWaiting();
        FeedWait(Ubx, o, bytes);
      }
    }

    lemma WholeCandidate()
      requires packet.Length == 65535 + 8
      requires packet[0] == Ubx.Preamble() && packet[1] == UBX_PREAMBLE1
      requires payloadLen == UbxPayload(packet[4], packet[5]) && packetLen == 8 + payloadLen
      ensures var f := packet[..packetLen];
              Judge(Ubx, f) == if UbxChecks(f) then Frame(|f|) else Bad(|f|)
    {
      hide UbxPayload, UbxChecks;
      JudgeWhole(Ubx, packet[..packetLen]);
    }

    /** The packet is complete: to next, or two bytes to rest and the others through `write` again. */
    method Complete()
      requires base.Valid() && this !in base.Repr && packet !in base.Repr && packet.Length == 65535 + 8
      requires packet[0] == Ubx.Preamble() && packet[1] == UBX_PREAMBLE1
      requires payloadLen == UbxPayload(packet[4], packet[5]) && packetLen == 8 + payloadLen
      modifies this`state, this`packetLen, this`payloadLen, packet, base.Repr
      ensures Valid() && base.Kept()
      ensures Snapshot() == Feed(Ubx, old(Outcome(base.events, packet[..packetLen], base.bad)), [])
      ensures |Held()| < old(packetLen)
      ensures packet[old(packetLen)..] == old(packet[packetLen..])
      decreases base.rank, packetLen, 1
    {
      hide Feed, UbxPayload, Judge, UbxChecks, FilterBase.Valid, FilterBase.Linked;
      ghost var f := packet[..packetLen];
      WholeCandidate();
      state := UbxState.Before;
      var ok := ValidChecksum();
      if ok {
        FeedFrameDone(Ubx, base.events, base.bad, f);
        base.WriteNext(packet, 0, packetLen);
        assert packet[0..packetLen] == f;
      } else {
        FeedUbxBadDone(base.events, base.bad, f);
        base.CountBad();
        assert packet[2..packetLen] == f[2..];
        Resync();
      }
    }

    /** After a failed checksum: both preamble bytes to rest, the others from the packet through `write` again. */
    method Resync()
      requires Valid() && state.Before?
      requires 2 <= packetLen <= packet.Length
      modifies this`state, this`packetLen, this`payloadLen, packet, base.Repr
      ensures Valid() && base.Kept()
      ensures Snapshot() == Feed(Ubx, old(Outcome(base.events + [ToRest(packet[0]), ToRest(packet[1])], [], base.bad)),
                                 old(packet[2..packetLen]))
      ensures |Held()| < old(packetLen)
      ensures packet[old(packetLen)..] == old(packet[packetLen..])
      decreases base.rank, packetLen, 0
    {
      hide Feed, Judge, AsRest, FilterBase.Valid, FilterBase.Linked;
      base.WriteRest(packet, 0, 2);
      AsRestTwo(packet[0..2]);
      var _ := Write(packet, 2, packetLen - 2);
    }

    /** One turn of the loop in `write`; what is still to do stays the same. */
    method Step(buf: array<byte>, ptr: nat, len: nat) returns (n: nat)
      requires Valid() && 0 < len && Readable(buf, ptr, len)
      modifies this`state, this`packetLen, this`payloadLen, packet, base.Repr
      ensures Valid() && base.Kept()
      ensures n <= len
      ensures Feed(Ubx, Snapshot(), old(buf[ptr..])[..len][n..]) == Feed(Ubx, old(Snapshot()), old(buf[ptr..])[..len])
      ensures |Held()| <= old(|Held()|) + n && |Held()| - n < old(|Held()|) + n
      ensures buf[ptr + n..] == old(buf[ptr..])[n..]
      decreases base.rank, |Held()| + len, 3
    {
      hide Feed, Judge, Valid, Held, Snapshot, FilterBase.Valid, FilterBase.Linked;
      ghost var o, rem := Snapshot(), buf[ptr..ptr + len];
      assert buf[ptr..][..len] == rem;
      if state.Preamble? {
        n := OnPreamble(buf, ptr, len);
      } else {
        if state.Before? {
          n := OnBefore(buf, ptr, len);
        } else if state.Header? {
          n := OnHeader(buf, ptr, len);
        } else {
          n := OnLoad(buf, ptr, len);
        }
        assert old(buf[ptr..ptr + n]) == rem[..n] by {
          assert forall k :: 0 <= k < n ==> old(buf[ptr..ptr + n])[k] == rem[k];
        }
        FeedRest(Ubx, o, Snapshot(), rem, n);
      }
    }

    /**
     One call of `write`, on `buf[off..off + len]`. The buffer may be the filter's own `packet`: then the
     slice must start beyond the held bytes, and `packet` stays as it was from the end of the slice on.
     */
    method Write(buf: array<byte>, off: nat, len: nat) returns (ret: nat)
      requires Valid() && Readable(buf, off, len)
      modifies this`state, this`packetLen, this`payloadLen, packet, base.Repr
      ensures ret == len && Fed(buf, off, len)
      decreases base.rank, |Held()| + len, 4
    {
      hide Feed, Judge, Valid, Held, Snapshot, FilterBase.Valid, FilterBase.Linked;
      ret := len;
      ghost var o, tail := Snapshot(), buf[off..];
      var i: nat := 0;
      assert tail[0..] == tail && tail[..len] == buf[off..off + len];
      while i < len
        invariant i <= len
        invariant Valid() && base.Kept()
        invariant |Held()| <= old(|Held()|) + i
        invariant buf[off + i..] == tail[i..]
        invariant Feed(Ubx, Snapshot(), tail[i..][..len - i]) == Feed(Ubx, o, tail[..len])
        decreases 2 * (len - i) + |Held()|
      {
        var n := Step(buf, off + i, len - i);
        Slices(tail, i, n, len);
        i := i + n;
      }
      assert tail[len..][..0] == [];
      Settled();
    }
  }

  // ---------- NMEA 0183 ----------

  datatype NmeaState = Before | Cr | Lf

  class NmeaFilter {
    const base: FilterBase
    const packet: array<byte>
    var state: NmeaState
    var packetLen: nat

    /** Before its CR a sentence has at most 1022 bytes, so CR and LF always fit. */
    ghost predicate Valid()
      reads this, packet, base, base.Repr
      ensures Valid() ==> base.Valid()
      decreases base.rank, 2
    {
      && base.Valid() && this !in base.Repr && packet !in base.Repr
      && packet.Length == 1024 && Shaped()
    }

    ghost predicate Shaped()
      requires packet.Length == 1024
      reads this, packet
    {
      && (!state.Before? ==> packet[0] == Nmea0183.Preamble())
      && (state.Cr? ==> 1 <= packetLen <= NMEA_ROOM && IndexOf(packet[..packetLen], CR) == packetLen)
      && (state.Lf? ==> 2 <= packetLen <= NMEA_ROOM + 1 && IndexOf(packet[..packetLen], CR) == packetLen - 1)
    }

    /** The partial sentence. */
    ghost function Held(): seq<byte>
      reads this, packet
    {
      if state.Before? then [] else Prefix(packet, packetLen)
    }

    ghost function Snapshot(): Outcome
      reads this, packet, base
    {
      Outcome(base.events, Held(), base.bad)
    }

    constructor ()
      ensures Valid() && fresh(base) && fresh(base.Repr) && fresh(packet)
      ensures Snapshot() == FRESH && base.Unwired()
    {
      base := new FilterBase();
      packet := new byte[1024];
      state := NmeaState.Before;
      packetLen := 0;
    }

    /** `valid_checksum`; a sentence too short to have a body before its `*` fails. */
    method ValidChecksum() returns (ok: bool)
      requires packetLen <= packet.Length
      ensures ok == NmeaChecks(packet[..packetLen])
    {
      hide NmeaSum.XorOf, NmeaSum.Strtol, Val;
      if packetLen < 6 || packet[packetLen - 5] != '*' as byte {
        return false;
      }
      var n := packetLen - 5;
      var crc := NmeaSum.Calculate(packet, 1, n);
      assert packet[..packetLen][1..n] == packet[1..n];
      ok := Val(crc) == NmeaSum.Strtol(packet[n + 1], packet[n + 2]);
    }

    /** What is held is an unfinished candidate. */
    lemma HeldWaiting()
      requires Valid()
      ensures Held() != [] ==> Judge(Nmea0183, Held()) == Wait
    {
      hide Judge, IndexOf;
      if !state.Before? {
        NmeaUnfinished(Held());
      }
    }

    lemma Settled()
      requires Valid()
      ensures Feed(Nmea0183, Snapshot(), []) == Snapshot()
    {
      hide Feed, Judge;
      HeldWaiting();
      FeedEmpty(Nmea0183, Snapshot());
    }

    /** A slice that may be written to the filter: of its own packet only what lies beyond the held bytes. */
    ghost predicate Readable(buf: array<byte>, ptr: nat, len: nat)
      reads this, packet, base
    {
      ptr + len <= buf.Length && buf !in base.Repr && (buf == packet ==> |Held()| < ptr)
    }

    /** `n` bytes at `ptr` went through the filter, and the buffer is unchanged beyond them. */
    twostate predicate Fed(buf: array<byte>, ptr: nat, n: nat)
      requires ptr + n <= buf.Length
      reads this, packet, base, base.Repr, buf
    {
      && Valid() && base.Kept()
      && Snapshot() == Feed(Nmea0183, old(Snapshot()), old(buf[ptr..ptr + n]))
      && |Held()| <= old(|Held()|) + n
      && buf[ptr + n..] == old(buf[ptr + n..])
    }

    /** `n` of the `len` bytes at `ptr` went through the filter, and what is still to do is the same as before. */
    twostate predicate SameTask(buf: array<byte>, ptr: nat, len: nat, n: nat)
      requires n <= len && ptr + len <= buf.Length
      reads this, packet, base, base.Repr, buf
    {
      && Valid() && base.Kept()
      && Feed(Nmea0183, Snapshot(), old(buf[ptr..ptr + len])[n..])
         == Feed(Nmea0183, old(Snapshot()), old(buf[ptr..ptr + len]))
      && |Held()| <= old(|Held()|) + n && |Held()| - n < old(|Held()|) + n
      && buf[ptr + n..] == old(buf[ptr + n..])
    }

    /** A preamble was found: hold it. */
    method Start()
      requires Valid() && state.Before?
      modifies this`state, this`packetLen, packet
      ensures Valid() && Held() == [Nmea0183.Preamble()]
      ensures packet[1..] == old(packet[1..])
    {
      state := NmeaState.Cr;
      packetLen := 1;
      packet[0] := Nmea0183.Preamble();
      var one := [Nmea0183.Preamble()];
      assert packet[..1] == one;
      IndexOfIs(one, CR, 1);
    }

    /** State BEFORE: find the next preamble. */
    method OnBefore(buf: array<byte>, ptr: nat, len: nat) returns (n: nat)
      requires Valid() && state.Before? && 0 < len && Readable(buf, ptr, len)
      modifies this`state, this`packetLen, packet, base.Repr
      ensures 0 < n <= len && Fed(buf, ptr, n)
      decreases base.rank, |Held()| + len, 2
    {
      hide Feed, AsRest, Judge, IndexOf, Shaped, FilterBase.Valid, FilterBase.Linked;
      var preamble := MemChr(buf, ptr, Nmea0183.Preamble(), len);
      ghost var junk := buf[ptr..preamble];
      if preamble == ptr + len {
        FeedJunkOnly(Nmea0183, base.events, base.bad, junk);
        base.WriteRest(buf, ptr, len);
        n := len;
      } else {
        FeedPreamble(Nmea0183, base.events, base.bad, junk);
        assert buf[ptr..preamble + 1] == junk + [Nmea0183.Preamble()];
        if preamble != ptr {
          base.WriteRest(buf, ptr, preamble - ptr);
        } else {
          assert base.events + AsRest(junk) == base.events;
        }
        Start();
        n := preamble - ptr + 1;
        if buf == packet {
          assert packet[ptr + n..] == packet[1..][ptr + n - 1..];
        }
      }
    }

    /** State CR: collect the sentence up to its CR; a sentence that cannot fit is given up at once. */
    method OnCr(buf: array<byte>, ptr: nat, len: nat) returns (n: nat)
      requires Valid() && state.Cr? && 0 < len && Readable(buf, ptr, len)
      modifies this`state, this`packetLen, packet, base.Repr
      ensures n <= len && SameTask(buf, ptr, len, n)
      decreases base.rank, |Held()| + len, 2
    {
      hide Feed, Judge, IndexOf, FilterBase.Valid, FilterBase.Linked;
      ghost var rem := buf[ptr..ptr + len];
      var cr := MemChr(buf, ptr, CR, len);
      IndexOfPrefix(Held(), rem, CR);
      if packetLen + (cr - ptr) > NMEA_ROOM {
        GiveUp(rem);
        n := 0;
        assert buf[ptr + 0..] == old(buf[ptr + 0..]) && rem[0..] == rem;
      } else {
        n := Take(buf, ptr, len, cr);
      }
    }

    /** The chunk, or its part up to the CR, fits. */
    method Take(buf: array<byte>, ptr: nat, len: nat, cr: nat) returns (n: nat)
      requires Valid() && state.Cr? && 0 < len && Readable(buf, ptr, len)
      requires ptr <= cr <= ptr + len && CR !in buf[ptr..cr] && (cr < ptr + len ==> buf[cr] == CR)
      requires packetLen + (cr - ptr) <= NMEA_ROOM
      modifies this`state, this`packetLen, packet
      ensures n <= len && SameTask(buf, ptr, len, n)
    {
      hide Feed, Judge, IndexOf, Shaped, FilterBase.Valid, FilterBase.Linked;
      ghost var o, rem := Snapshot(), buf[ptr..ptr + len];
      ghost var later := buf[cr..];
      assert buf[ptr..cr] == rem[..cr - ptr];
      n := Collect(buf, ptr, cr - ptr);
      assert buf[cr..] == later;
      if cr < ptr + len {
        assert later[0] == CR == rem[n];
        assert later[1..] == old(buf[cr + 1..]);
        CloseLine(buf, cr);
        n := n + 1;
        assert buf[cr + 1..] == later[1..];
        FeedSplit(Nmea0183, o, rem[..n - 1], [CR]);
        assert rem[..n] == rem[..n - 1] + [CR];
      }
      FeedRest(Nmea0183, o, Snapshot(), rem, n);
    }

    /** The sentence is too long: its `$` to rest, the others from the packet through `write` again. */
    method GiveUp(ghost rem: seq<byte>)
      requires Valid() && state.Cr? && rem != []
      requires IndexOf(Held() + rem, CR) > NMEA_ROOM
      modifies this`state, this`packetLen, packet, base.Repr
      ensures Valid() && base.Kept()
      ensures Feed(Nmea0183, Snapshot(), rem) == Feed(Nmea0183, old(Snapshot()), rem)
      ensures |Held()| < old(|Held()|)
      ensures packet[old(packetLen)..] == old(packet[packetLen..])
      decreases base.rank, |Held()|, 1
    {
      hide Feed, Judge, IndexOf, FilterBase.Valid, FilterBase.Linked;
      ghost var o, h := Snapshot(), Held();
      NmeaTooLong(h + rem);
      FeedNoFrame(Nmea0183, o.events, o.bad, h, rem);
      FeedSplit(Nmea0183, Outcome(o.events + [ToRest(h[0])], [], o.bad), h[1..], rem);
      assert h[1..] == packet[1..packetLen];
      state := NmeaState.Before;
      Resync();
    }

    /** Bytes that belong to the sentence; a chunk may hold none before its CR. */
    method Collect(buf: array<byte>, ptr: nat, l: nat) returns (n: nat)
      requires Valid() && state.Cr? && Readable(buf, ptr, l)
      requires CR !in buf[ptr..ptr + l] && packetLen + l <= NMEA_ROOM
      modifies this`packetLen, packet
      ensures n == l && state.Cr? && packetLen == old(packetLen) + l && Fed(buf, ptr, l)
    {
      hide Feed, Judge, IndexOf, FilterBase.Valid, FilterBase.Linked;
      ghost var o, bytes, later := Snapshot(), buf[ptr..ptr + l], buf[ptr + l..];
      n := l;
      MemMove(packet, packetLen, buf, ptr, l);
      packetLen := packetLen + l;
      assert packet[..packetLen] == o.held + bytes;
      assert buf[ptr + l..] == later;
      IndexOfIs(bytes, CR, l);
      IndexOfPrefix(o.held, bytes, CR);
      HeldWaiting();
      FeedWait(Nmea0183, o, bytes);
    }

    /** The CR. */
    method CloseLine(buf: array<byte>, ptr: nat)
      requires Valid() && state.Cr? && Readable(buf, ptr, 1) && buf[ptr] == CR
      modifies this`state, this`packetLen, packet
      ensures Valid() && state.Lf?
      ensures Snapshot() == Feed(Nmea0183, old(Snapshot()), [CR])
      ensures |Held()| == old(|Held()|) + 1
      ensures buf[ptr + 1..] == old(buf[ptr + 1..])
    {
      hide Feed, Judge, IndexOf, FilterBase.Valid, FilterBase.Linked;
      ghost var o := Snapshot();
      state := NmeaState.Lf;
      packet[packetLen] := CR;
      packetLen := packetLen + 1;
      assert packet[..packetLen] == o.held + [CR];
      IndexOfIs([CR], CR, 0);
      IndexOfPrefix(o.held, [CR], CR);
      HeldWaiting();
      FeedWait(Nmea0183, o, [CR]);
    }

    lemma WholeSentence()
      requires Valid() && state.Lf?
      ensures var f := Held() + [LF];
              Judge(Nmea0183, f) == if NmeaChecks(f) then Frame(|f|) else Bad(|f|)
    {
      hide NmeaChecks, IndexOf;
      var f := Held() + [LF];
      IndexOfPrefix(Held(), [LF], CR);
      JudgeWhole(Nmea0183, f);
    }

    /** After a judged sentence nothing is held: its line has ended. */
    lemma SentenceReplay(c: seq<byte>, start: Outcome)
      requires |c| >= 2 && c[|c| - 1] == CR && start.held == []
      ensures Feed(Nmea0183, start, (c + [LF])[1..]).held == []
    {
      hide Parse;
      var s := (c + [LF])[1..];
      assert [] + s == s && s[|s| - 1] == LF && s[|s| - 2] == CR;
      NothingHeld(s);
    }

    /** State LF: judge the sentence. Nothing is consumed: the byte after the CR is seen again as stream data. */
    method OnLf(buf: array<byte>, ptr: nat, len: nat)
      requires Valid() && state.Lf? && 0 < len && Readable(buf, ptr, len)
      modifies this`state, this`packetLen, packet, base.Repr
      ensures Valid() && base.Kept()
      ensures Feed(Nmea0183, Snapshot(), old(buf[ptr..ptr + len]))
           == Feed(Nmea0183, old(Snapshot()), old(buf[ptr..ptr + len]))
      ensures Held() == [] && |old(Held())| > 0
      ensures buf[ptr..] == old(buf[ptr..])
      decreases base.rank, |Held()| + len, 2
    {
      hide Feed, Judge, IndexOf, AsRest, NmeaChecks, FilterBase.Valid, FilterBase.Linked;
      ghost var o, rem := Snapshot(), buf[ptr..ptr + len];
      WholeSentence();
      if buf[ptr] == LF {
        Judged(buf, ptr, rem);
      } else {
        FeedBrokenSentence(o.events, o.bad, o.held, rem);
        state := NmeaState.Before;
        base.WriteRest(packet, 0, packetLen);
        assert packet[0..packetLen] == o.held;
      }
    }

    /** The LF is there: to next, or the `$` to rest and the others from the packet through `write` again. */
    method Judged(buf: array<byte>, ptr: nat, ghost rem: seq<byte>)
      requires Valid() && state.Lf?
      requires ptr < buf.Length && buf !in base.Repr && (buf == packet ==> |Held()| < ptr)
      requires rem != [] && rem[0] == LF
      modifies this`state, this`packetLen, packet, base.Repr
      ensures Valid() && base.Kept()
      ensures Feed(Nmea0183, Snapshot(), rem) == Feed(Nmea0183, old(Snapshot()), rem)
      ensures Held() == []
      ensures buf[ptr..] == old(buf[ptr..])
      decreases base.rank, |Held()| + 1, 1
    {
      hide Feed, Judge, IndexOf, NmeaChecks, FilterBase.Valid, FilterBase.Linked;
      ghost var o, later := Snapshot(), buf[ptr..];
      WholeSentence();
      state := NmeaState.Before;
      packet[packetLen] := LF;
      packetLen := packetLen + 1;
      ghost var filled := packetLen;
      assert packet[..packetLen] == o.held + [LF];
      assert buf[ptr..] == later;
      var ok := ValidChecksum();
      if ok {
        FeedSentence(o.events, o.bad, o.held, rem);
        assert packet[0..packetLen] == o.held + [LF];
        base.WriteNext(packet, 0, packetLen);
      } else {
        FeedBadSentence(o.events, o.bad, o.held, rem);
        assert packet[1..packetLen] == (o.held + [LF])[1..];
        ghost var start := Outcome(o.events + [ToRest(o.held[0])], [], o.bad);
        FeedCount(Nmea0183, start, packet[1..packetLen]);
        SentenceReplay(o.held, start);
        Resync();
        if buf == packet {
          assert packet[ptr..] == packet[filled..][ptr - filled..];
        }
        base.CountBad();
      }
    }

    /** The first byte to rest, the others from the packet through `write` again. */
    method Resync()
      requires Valid() && state.Before?
      requires 0 < packetLen <= packet.Length
      modifies this`state, this`packetLen, packet, base.Repr
      ensures Valid() && base.Kept()
      ensures Snapshot() == Feed(Nmea0183, old(Outcome(base.events + [ToRest(packet[0])], [], base.bad)),
                                 old(packet[1..packetLen]))
      ensures |Held()| < old(packetLen)
      ensures packet[old(packetLen)..] == old(packet[packetLen..])
      decreases base.rank, packetLen, 0
    {
      hide Feed, Judge, AsRest, FilterBase.Valid, FilterBase.Linked;
      base.WriteRest(packet, 0, 1);
      AsRestOne(packet[0..1]);
      var _ := Write(packet, 1, packetLen - 1);
    }

    /** One turn of the loop in `write`; what is still to do stays the same. */
    method Step(buf: array<byte>, ptr: nat, len: nat) returns (n: nat)
      requires Valid() && 0 < len && Readable(buf, ptr, len)
      modifies this`state, this`packetLen, packet, base.Repr
      ensures Valid() && base.Kept()
      ensures n <= len
      ensures Feed(Nmea0183, Snapshot(), old(buf[ptr..])[..len][n..])
           == Feed(Nmea0183, old(Snapshot()), old(buf[ptr..])[..len])
      ensures |Held()| <= old(|Held()|) + n && |Held()| - n < old(|Held()|) + n
      ensures buf[ptr + n..] == old(buf[ptr..])[n..]
      decreases base.rank, |Held()| + len, 3
    {
      hide Feed, Judge, Valid, Held, Snapshot, FilterBase.Valid, IndexOf, Shaped;
      ghost var o, rem := Snapshot(), buf[ptr..ptr + len];
      assert buf[ptr..][..len] == rem;
      if state.Cr? {
        n := OnCr(buf, ptr, len);
      } else if state.Lf? {
        OnLf(buf, ptr, len);
        n := 0;
        assert rem[0..] == rem && buf[ptr + 0..] == buf[ptr..];
      } else {
        n := OnBefore(buf, ptr, len);
        assert old(buf[ptr..ptr + n]) == rem[..n] by {
          assert forall k :: 0 <= k < n ==> old(buf[ptr..ptr + n])[k] == rem[k];
        }
        FeedRest(Nmea0183, o, Snapshot(), rem, n);
      }
    }

    /**
     One call of `write`, on `buf[off..off + len]`. The buffer may be the filter's own `packet`: then the
     slice must start beyond the held bytes, and `packet` stays as it was from the end of the slice on.
     */
    method Write(buf: array<byte>, off: nat, len: nat) returns (ret: nat)
      requires Valid() && Readable(buf, off, len)
      modifies this`state, this`packetLen, packet, base.Repr
      ensures ret == len && Fed(buf, off, len)
      decreases base.rank, |Held()| + len, 4
    {
      hide Feed, Judge, Valid, Held, Snapshot, FilterBase.Valid, IndexOf, Shaped;
      ret := len;
      ghost var o, tail := Snapshot(), buf[off..];
      var i: nat := 0;
      assert tail[0..] == tail && tail[..len] == buf[off..off + len];
      while i < len
        invariant i <= len
        invariant Valid() && base.Kept()
        invariant |Held()| <= old(|Held()|) + i
        invariant buf[off + i..] == tail[i..]
        invariant Feed(Nmea0183, Snapshot(), tail[i..][..len - i]) == Feed(Nmea0183, o, tail[..len])
        decreases 2 * (len - i) + |Held()|
      {
        var n := Step(buf, off + i, len - i);
        Slices(tail, i, n, len);
        i := i + n;
      }
      assert tail[len..][..0] == [];
      Settled();
    }
  }

  // ---------- runs of a wired network ----------

  /** What the recognisers reached along `rest` have put out and hold, the nearest first. */
  ghost function Outcomes(e: Endpoint): (os: seq<Outcome>)
    requires e.Valid()
    reads e, e.Repr
    ensures |os| == |e.route.chain|
    decreases e.rank
  {
    match e.target
    case Sink => []
    case ToMavlink(f) => [f.Snapshot()] + OutcomesBelow(f.base)
    case ToRtcm(f) => [f.Snapshot()] + OutcomesBelow(f.base)
    case ToUbx(f) => [f.Snapshot()] + OutcomesBelow(f.base)
    case ToNmea(f) => [f.Snapshot()] + OutcomesBelow(f.base)
  }

  ghost function OutcomesBelow(base: FilterBase): (os: seq<Outcome>)
    requires base.Valid()
    reads base, base.Repr
    ensures |os| == |base.below.chain|
    decreases base.rank
  {
    if base.below.chain == [] then [] else Outcomes(base.rest)
  }

  /**
   Whatever was written to a wired network, in whatever chunks: each recogniser along `rest` has the outcome
   of the chain's parse of the whole input.
   */
  lemma {:induction false} NetworkRun(e: Endpoint)
    requires e.Valid()
    ensures Outcomes(e) == ChainParse(e.route.chain, Flatten(e.writes))
    decreases e.rank
  {
    hide Parse, Run;
    if e.route.chain != [] {
      ChunkIndependence(e.route.chain[0], e.writes);
      match e.target
      case ToMavlink(f) => BelowRun(f.base);
      case ToRtcm(f) => BelowRun(f.base);
      case ToUbx(f) => BelowRun(f.base);
      case ToNmea(f) => BelowRun(f.base);
      case Sink =>
    }
  }

  lemma {:induction false} BelowRun(base: FilterBase)
    requires base.Valid()
    ensures OutcomesBelow(base) == ChainParse(base.below.chain, RestOf(base.events))
    decreases base.rank
  {
    hide Parse, Run;
    if base.below.chain != [] {
      NetworkRun(base.rest);
      assert base.events[0..] == base.events;
      assert [] + RestOf(base.events) == RestOf(base.events);
    }
  }

  /** Each port has received, since it was wired, exactly the frames of its recogniser, one write each. */
  ghost predicate Served(ports: seq<Option<Port>>, os: seq<Outcome>)
    reads set port | port in ports && port.Some? :: port.value.to
  {
    && |ports| == |os|
    && forall k :: 0 <= k < |os| && ports[k].Some? ==>
         ports[k].value.to.writes == ports[k].value.before + FramesOf(os[k].events)
  }

  /** The endpoint behind the last recogniser has received exactly `s`. */
  ghost predicate Reached(last: Option<Endpoint>, s: seq<byte>)
    reads if last.Some? then {last.value} else {}
  {
    last.Some? ==> Flatten(last.value.writes) == s
  }

  /**
   Delivery in a wired network, whatever was written to it in whatever chunks: every destination of frames
   along `rest` has received exactly the frames its recogniser has in the chain's parse of the whole input,
   one write each, and the last endpoint exactly the final rest stream.
   */
  lemma {:induction false} NetworkDelivery(e: Endpoint)
    requires e.Valid()
    ensures var s := Flatten(e.writes); var os := ChainParse(e.route.chain, s);
            Served(e.route.ports, os) && Reached(e.route.last, FinalRest(os, s))
    decreases e.rank, 1
  {
    hide Parse, Run, FramesOf, Flatten, Served, Reached;
    if e.target.Sink? {
      SinkServed(e);
    } else {
      ChunkIndependence(e.route.chain[0], e.writes);
      match e.target
      case ToMavlink(f) => DeliveryBelow(f.base, f.Proto(), Flatten(e.writes));
      case ToRtcm(f) => DeliveryBelow(f.base, Rtcm3, Flatten(e.writes));
      case ToUbx(f) => DeliveryBelow(f.base, Ubx, Flatten(e.writes));
      case ToNmea(f) => DeliveryBelow(f.base, Nmea0183, Flatten(e.writes));
    }
  }

  lemma SinkServed(e: Endpoint)
    ensures Served([], []) && Reached(Some(e), Flatten(e.writes))
  {
  }

  lemma {:induction false} DeliveryBelow(base: FilterBase, p: Protocol, s: seq<byte>)
    requires base.Valid() && base.events == Parse(p, s).events
    ensures var r := base.Through(p); var os := ChainParse(r.chain, s);
            Served(r.ports, os) && Reached(r.last, FinalRest(os, s))
    decreases base.rank, 0
  {
    hide Parse, Run, Flatten, FramesOf, RestOf, Served, Reached, FinalRest, Endpoint.Valid;
    var o := Parse(p, s);
    var let := RestOf(o.events);
    var later := ChainParse(base.below.chain, let);
    assert base.Through(p).chain[1..] == base.below.chain;
    FinalRestLater(o, later, s);
    OwnServed(base, o);
    if base.below == NOWHERE {
      NoneServed(FinalRest(later, let));
    } else {
      assert o.events[0..] == o.events && [] + let == let;
      NetworkDelivery(base.rest);
    }
    ServedFirst(base.OwnPort(), base.below.ports, o, later);
  }

  lemma OwnServed(base: FilterBase, o: Outcome)
    requires base.Valid() && base.events == o.events
    ensures Served([base.OwnPort()], [o])
  {
    hide FramesOf, RestOf, Flatten, Endpoint.Valid;
    assert base.events[0..] == base.events;
  }

  lemma NoneServed(s: seq<byte>)
    ensures Served([], []) && Reached(None, s)
  {
  }

  lemma ServedFirst(port: Option<Port>, ports: seq<Option<Port>>, o: Outcome, os: seq<Outcome>)
    requires Served([port], [o]) && Served(ports, os)
    ensures Served([port] + ports, [o] + os)
  {
    hide FramesOf;
    assert [port][0] == port && [o][0] == o;
  }

  /** Since they were wired the destinations have received valid frames of their protocol and nothing else. */
  lemma OnlyValidDelivered(e: Endpoint)
    requires e.Valid()
    ensures forall k :: 0 <= k < |e.route.chain| && e.route.ports[k].Some? ==>
              var port := e.route.ports[k].value;
              && |port.before| <= |port.to.writes|
              && forall f :: f in port.to.writes[|port.before|..] ==> ValidFrame(e.route.chain[k], f)
  {
    hide Endpoint.Valid, Flatten, FramesOf, FinalRest, Reached, ValidFrame;
    NetworkDelivery(e);
    OnlyValidInChain(e.route.chain, Flatten(e.writes));
  }

  /**
   The round trip of a wired network, under every chunking: when frames of its protocols with junk between them
   were written, each let through by the stages before its own, every destination has received exactly the
   frames of its own stage, and the last endpoint what no stage takes.
   */
  lemma NetworkRoundTrip(e: Endpoint, items: seq<MixedStreams.Item>)
    requires e.Valid() && Flatten(e.writes) == MixedStreams.Spelled(items)
    requires forall item :: item in items ==> MixedStreams.Fits(e.route.chain, item)
    ensures forall k :: 0 <= k < |e.route.chain| && e.route.ports[k].Some? ==>
              var port := e.route.ports[k].value;
              port.to.writes == port.before + MixedStreams.FramesFor(items, k)
    ensures Reached(e.route.last, MixedStreams.LeftOver(e.route.chain, items))
  {
    hide Endpoint.Valid, Flatten, FramesOf, FinalRest, Reached;
    hide MixedStreams.Fits, MixedStreams.FramesFor, MixedStreams.LeftOver, MixedStreams.Spelled;
    NetworkDelivery(e);
    MixedStreams.MixedRoundTrip(e.route.chain, items);
  }

  /** Two networks with the same recognisers and the same input agree, however the input was cut into writes. */
  lemma SameOutcomes(e1: Endpoint, e2: Endpoint)
    requires e1.Valid() && e2.Valid() && e1.route.chain == e2.route.chain
    requires Flatten(e1.writes) == Flatten(e2.writes)
    ensures Outcomes(e1) == Outcomes(e2)
  {
    hide Endpoint.Valid;
    NetworkRun(e1);
    NetworkRun(e2);
  }

  /**
   Bytes sent to `next` by all recognisers, bytes they hold, and the bytes that leave the last one through
   `rest` are the bytes written, and the LFs that sentences repeat.
   */
  lemma NetworkConservation(e: Endpoint)
    requires e.Valid()
    ensures var os, s := Outcomes(e), Flatten(e.writes);
            Taken(os) + |FinalRest(os, s)| == |s| + RepeatsIn(e.route.chain, os)
  {
    hide Endpoint.Valid, ChainParse, Taken, FinalRest, RepeatsIn;
    NetworkRun(e);
    ChainConservation(e.route.chain, Flatten(e.writes));
  }

  ghost function BaseOf(t: Target): FilterBase
    requires !t.Sink?
  {
    match t
    case ToMavlink(f) => f.base
    case ToRtcm(f) => f.base
    case ToUbx(f) => f.base
    case ToNmea(f) => f.base
  }

  ghost function SnapshotOf(t: Target): Outcome
    requires !t.Sink?
    reads match t
          case ToMavlink(f) => {f, f.packet, f.base}
          case ToRtcm(f) => {f, f.packet, f.base}
          case ToUbx(f) => {f, f.packet, f.base}
          case ToNmea(f) => {f, f.packet, f.base}
  {
    match t
    case ToMavlink(f) => f.Snapshot()
    case ToRtcm(f) => f.Snapshot()
    case ToUbx(f) => f.Snapshot()
    case ToNmea(f) => f.Snapshot()
  }

  /** A recogniser behind an endpoint has parsed all that was written, and its counters mirror its output. */
  lemma FilterRun(e: Endpoint)
    requires e.Valid() && !e.target.Sink?
    ensures e.route.chain != [] && SnapshotOf(e.target) == Parse(e.route.chain[0], Flatten(e.writes))
    ensures BaseOf(e.target).Valid()
    ensures SnapshotOf(e.target).events == BaseOf(e.target).events && SnapshotOf(e.target).bad == BaseOf(e.target).bad
  {
    hide Parse, Run, FilterBase.Valid;
    ChunkIndependence(e.route.chain[0], e.writes);
  }

  /** An endpoint wired as `next` from the start has received exactly the frames of the parse, one write each. */
  lemma FramesDelivered(e: Endpoint)
    requires e.Valid() && !e.target.Sink?
    requires var base := BaseOf(e.target); base.next != null && base.nextSince == 0 && base.nextBefore == []
    ensures e.route.chain != []
    ensures BaseOf(e.target).next.writes == FramesOf(Parse(e.route.chain[0], Flatten(e.writes)).events)
  {
    hide Parse, Endpoint.Valid, FramesOf, RestOf;
    FilterRun(e);
    var base := BaseOf(e.target);
    assert base.events[0..] == base.events;
    assert [] + FramesOf(base.events) == FramesOf(base.events);
  }

  /** An endpoint wired as `rest` from the start has received exactly the rest stream of the parse. */
  lemma RestDelivered(e: Endpoint)
    requires e.Valid() && !e.target.Sink?
    requires var base := BaseOf(e.target); base.rest != null && base.restSince == 0 && base.restBefore == []
    ensures e.route.chain != []
    ensures Flatten(BaseOf(e.target).rest.writes) == RestOf(Parse(e.route.chain[0], Flatten(e.writes)).events)
  {
    hide Parse, Endpoint.Valid, FramesOf, RestOf;
    FilterRun(e);
    var base := BaseOf(e.target);
    assert base.events[0..] == base.events;
    assert [] + RestOf(base.events) == RestOf(base.events);
  }

  /**
   Accounting over whole runs: the bytes counted for `next` and `rest` and the bytes held are the bytes written
   (and the repeated LFs of NMEA), `pack` counts the frames, and for MAVLink and RTCM3 `badcrc` is the number of
   preamble bytes in the rest stream.
   */
  lemma Accounting(e: Endpoint)
    requires e.Valid() && !e.target.Sink?
    ensures e.route.chain != []
    ensures var p, o, cnt := e.route.chain[0], SnapshotOf(e.target), BaseOf(e.target).cnt;
            && cnt.Value("next") + cnt.Value("rest") + |o.held| == |Flatten(e.writes)| + Repeats(p, o)
            && cnt.Value("pack") == |FramesOf(o.events)|
            && cnt.Value("badcrc") == o.bad
            && (p.Mavlink1? || p.Rtcm3? ==> cnt.Value("badcrc") == Count(RestOf(o.events), p.Preamble()))
  {
    hide Parse, Endpoint.Valid, FramesOf, RestOf, Repeats, FilterBase.Linked;
    FilterRun(e);
    var p, s := e.route.chain[0], Flatten(e.writes);
    LengthLaw(p, s);
    RestAndFrames(Parse(p, s).events);
    if p.Mavlink1? || p.Rtcm3? {
      PreamblesInRest(p, s);
    }
  }

  /** A filter is wired to these endpoints, and has put out nothing since. */
  ghost predicate Wired(base: FilterBase, next: Endpoint, rest: Endpoint?)
    reads base, next, rest
  {
    && base.next == next && base.nextSince == |base.events| && base.nextBefore == next.writes
    && base.rest == rest
    && (rest != null ==> base.restSince == |base.events| && base.restBefore == Flatten(rest.writes))
  }

  /** The route of a recogniser wired to `next`, above another route. */
  ghost function Onto(p: Protocol, next: Endpoint, below: Route): Route
    reads next
  {
    Line([p] + below.chain, [Some(Port(next, next.writes))] + below.ports, below.last)
  }

  /** A UBX filter behind an endpoint of its own, wired to `next` and `rest`. */
  method NewUbx(next: Endpoint, rest: Endpoint) returns (e: Endpoint)
    requires next.Valid() && rest.Valid() && next.Repr !! rest.Repr
    ensures e.Valid() && e.Repr >= next.Repr + rest.Repr && fresh(e.Repr - next.Repr - rest.Repr)
    ensures e.writes == [] && e.target.ToUbx? && Wired(BaseOf(e.target), next, rest)
    ensures e.route == Onto(Ubx, next, if Flatten(rest.writes) == [] then rest.route else NOWHERE)
  {
    hide Run, Feed, Endpoint.Valid, FilterBase.Valid;
    var f := new UbxFilter();
    f.base.ChainTo(next);
    f.base.RestTo(rest);
    e := new Endpoint.OfUbx(f);
  }

  method NewRtcm(next: Endpoint, rest: Endpoint) returns (e: Endpoint)
    requires next.Valid() && rest.Valid() && next.Repr !! rest.Repr
    ensures e.Valid() && e.Repr >= next.Repr + rest.Repr && fresh(e.Repr - next.Repr - rest.Repr)
    ensures e.writes == [] && e.target.ToRtcm? && Wired(BaseOf(e.target), next, rest)
    ensures e.route == Onto(Rtcm3, next, if Flatten(rest.writes) == [] then rest.route else NOWHERE)
  {
    hide Run, Feed, Endpoint.Valid, FilterBase.Valid;
    var f := new RtcmV3();
    f.base.ChainTo(next);
    f.base.RestTo(rest);
    e := new Endpoint.OfRtcm(f);
  }

  method NewNmea(next: Endpoint) returns (e: Endpoint)
    requires next.Valid()
    ensures e.Valid() && e.Repr >= next.Repr && fresh(e.Repr - next.Repr)
    ensures e.writes == [] && e.target.ToNmea? && Wired(BaseOf(e.target), next, null)
    ensures e.route == Onto(Nmea0183, next, NOWHERE)
  {
    hide Run, Feed, Endpoint.Valid, FilterBase.Valid;
    var f := new NmeaFilter();
    f.base.ChainTo(next);
    e := new Endpoint.OfNmea(f);
  }

  /** The route of others/config.yml: UBX, then RTCM3, then NMEA along `rest`, frames of each to an endpoint. */
  method RouteRest(ubxDst: Endpoint, rtcmDst: Endpoint, nmeaDst: Endpoint) returns (head: Endpoint)
    requires ubxDst.Valid() && rtcmDst.Valid() && nmeaDst.Valid()
    requires ubxDst.Repr !! rtcmDst.Repr && ubxDst.Repr !! nmeaDst.Repr && rtcmDst.Repr !! nmeaDst.Repr
    ensures head.Valid() && head.writes == [] && head.Repr >= ubxDst.Repr + rtcmDst.Repr + nmeaDst.Repr
    ensures fresh(head.Repr - ubxDst.Repr - rtcmDst.Repr - nmeaDst.Repr)
    ensures head.route == Onto(Ubx, ubxDst, Onto(Rtcm3, rtcmDst, Onto(Nmea0183, nmeaDst, NOWHERE)))
  {
    hide Endpoint.Valid;
    var nmea := NewNmea(nmeaDst);
    var rtcm := NewRtcm(rtcmDst, nmea);
    head := NewUbx(ubxDst, rtcm);
  }

  /** What the three destinations of the route have received, after any writes to its head. */
  lemma RouteDelivery(head: Endpoint, ubx: Port, rtcm: Port, nmea: Port)
    requires head.Valid() && head.route.chain == [Ubx, Rtcm3, Nmea0183]
    requires head.route.ports == [Some(ubx), Some(rtcm), Some(nmea)]
    ensures var first := Parse(Ubx, Flatten(head.writes));
            var second := Parse(Rtcm3, RestOf(first.events));
            var third := Parse(Nmea0183, RestOf(second.events));
            && ubx.to.writes == ubx.before + FramesOf(first.events)
            && rtcm.to.writes == rtcm.before + FramesOf(second.events)
            && nmea.to.writes == nmea.before + FramesOf(third.events)
  {
    hide Parse, FramesOf, RestOf, Flatten, Endpoint.Valid, FinalRest;
    NetworkDelivery(head);
    var s, ports := Flatten(head.writes), head.route.ports;
    ChainOfThree(Ubx, Rtcm3, Nmea0183, s);
    var os := ChainParse(head.route.chain, s);
    assert ports[0].Some? && ports[1].Some? && ports[2].Some?;
  }

  /** The route at work: a buffer that arrives in two chunks reaches the destinations as if it came in one. */
  method RouteInTwo(ubxDst: Endpoint, rtcmDst: Endpoint, nmeaDst: Endpoint, buf: array<byte>, cut: nat)
    requires ubxDst.Valid() && rtcmDst.Valid() && nmeaDst.Valid()
    requires ubxDst.Repr !! rtcmDst.Repr && ubxDst.Repr !! nmeaDst.Repr && rtcmDst.Repr !! nmeaDst.Repr
    requires buf !in ubxDst.Repr + rtcmDst.Repr + nmeaDst.Repr && cut <= buf.Length
    modifies ubxDst.Repr, rtcmDst.Repr, nmeaDst.Repr
    ensures var first := Parse(Ubx, buf[..]);
            var second := Parse(Rtcm3, RestOf(first.events));
            var third := Parse(Nmea0183, RestOf(second.events));
            && ubxDst.writes == old(ubxDst.writes) + FramesOf(first.events)
            && rtcmDst.writes == old(rtcmDst.writes) + FramesOf(second.events)
            && nmeaDst.writes == old(nmeaDst.writes) + FramesOf(third.events)
  {
    hide Parse, FramesOf, RestOf, Endpoint.Valid;
    ghost var ubx, rtcm := Port(ubxDst, ubxDst.writes), Port(rtcmDst, rtcmDst.writes);
    ghost var nmea := Port(nmeaDst, nmeaDst.writes);
    var head := RouteRest(ubxDst, rtcmDst, nmeaDst);
    head.Write(buf, 0, cut);
    head.Write(buf, cut, buf.Length - cut);
    assert head.writes == [buf[0..cut], buf[cut..buf.Length]];
    FlattenTwo(buf[0..cut], buf[cut..buf.Length]);
    assert buf[0..cut] + buf[cut..buf.Length] == buf[..];
    RouteDelivery(head, ubx, rtcm, nmea);
  }

  lemma FlattenTwo<T>(a: seq<T>, b: seq<T>)
    ensures Flatten([a, b]) == a + b
  {
    assert [a, b][..1] == [a] && [a][..0] == [];
    assert Flatten([a]) == [] + a;
  }
}
