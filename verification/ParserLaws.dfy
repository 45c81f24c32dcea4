/** What the greedy parser guarantees: every byte accounted for, no frame lost, frames recovered. */
module ParserLaws {
  import opened Bytes
  import opened Protocols
  import opened Parser

  // ---------- reading an event sequence ----------

  /** Each byte on its own to rest. */
  function AsRest(s: seq<byte>): (events: seq<Event>)
    ensures |events| == |s|
  {
    seq(|s|, i requires 0 <= i < |s| => ToRest(s[i]))
  }

  function BytesOf(e: Event): seq<byte> {
    match e
    case ToNext(f) => f
    case ToRest(b) => [b]
  }

  function RestIn(e: Event): seq<byte> {
    if e.ToRest? then [e.b] else []
  }

  function FramesIn(e: Event): seq<seq<byte>> {
    if e.ToNext? then [e.frame] else []
  }

  /** All bytes put out, in emission order. */
  function Spell(events: seq<Event>): seq<byte> {
    if events == [] then [] else BytesOf(events[0]) + Spell(events[1..])
  }

  /** The rest stream. */
  function RestOf(events: seq<Event>): seq<byte> {
    if events == [] then [] else RestIn(events[0]) + RestOf(events[1..])
  }

  /** The frames sent to next. */
  function FramesOf(events: seq<Event>): seq<seq<byte>> {
    if events == [] then [] else FramesIn(events[0]) + FramesOf(events[1..])
  }

  lemma Front(e: Event, events: seq<Event>)
    ensures Spell([e] + events) == BytesOf(e) + Spell(events)
    ensures RestOf([e] + events) == RestIn(e) + RestOf(events)
    ensures FramesOf([e] + events) == FramesIn(e) + FramesOf(events)
  {
    hide BytesOf, RestIn, FramesIn;
    assert ([e] + events)[1..] == events;
  }

  lemma {:induction false} SpellConcat(a: seq<Event>, b: seq<Event>)
    ensures Spell(a + b) == Spell(a) + Spell(b)
  {
    hide BytesOf;
    if a == [] {
      assert a + b == b;
    } else {
      assert (a + b)[1..] == a[1..] + b;
      SpellConcat(a[1..], b);
    }
  }

  lemma {:induction false} RestConcat(a: seq<Event>, b: seq<Event>)
    ensures RestOf(a + b) == RestOf(a) + RestOf(b)
  {
    hide RestIn;
    if a == [] {
      assert a + b == b;
    } else {
      assert (a + b)[1..] == a[1..] + b;
      RestConcat(a[1..], b);
    }
  }

  lemma {:induction false} FramesConcat(a: seq<Event>, b: seq<Event>)
    ensures FramesOf(a + b) == FramesOf(a) + FramesOf(b)
  {
    hide FramesIn;
    if a == [] {
      assert a + b == b;
    } else {
      assert (a + b)[1..] == a[1..] + b;
      FramesConcat(a[1..], b);
    }
  }

  lemma {:induction false} AsRestReads(s: seq<byte>)
    ensures Spell(AsRest(s)) == s && RestOf(AsRest(s)) == s && FramesOf(AsRest(s)) == []
  {
    if s != [] {
      assert AsRest(s)[1..] == AsRest(s[1..]);
      AsRestReads(s[1..]);
    }
  }

  lemma AsRestOne(s: seq<byte>)
    requires |s| == 1
    ensures AsRest(s) == [ToRest(s[0])]
  {
  }

  lemma AsRestTwo(s: seq<byte>)
    requires |s| == 2
    ensures AsRest(s) == [ToRest(s[0]), ToRest(s[1])]
  {
  }

  // ---------- the head of the input ----------

  lemma AfterAfter(e1: seq<Event>, b1: nat, e2: seq<Event>, b2: nat, o: Outcome)
    ensures After(e1, b1, After(e2, b2, o)) == After(e1 + e2, b1 + b2, o)
  {
    assert e1 + (e2 + o.events) == e1 + e2 + o.events;
  }

  /** Bytes that are no preamble pass to rest. */
  lemma {:induction false} JunkPrefix(p: Protocol, junk: seq<byte>, t: seq<byte>)
    requires p.Preamble() !in junk
    ensures Parse(p, junk + t) == After(AsRest(junk), 0, Parse(p, t))
  {
    hide Judge;
    if junk == [] {
      assert junk + t == t;
    } else {
      var s := junk + t;
      CandidateShape(p, s);
      assert s[0] == junk[0] && s[1..] == junk[1..] + t;
      JunkPrefix(p, junk[1..], t);
      assert AsRest(junk) == [ToRest(junk[0])] + AsRest(junk[1..]);
      AfterAfter([ToRest(junk[0])], 0, AsRest(junk[1..]), 0, Parse(p, t));
    }
  }

  lemma FrameHead(p: Protocol, f: seq<byte>, t: seq<byte>)
    requires f != [] && Judge(p, f) == Frame(|f|)
    ensures p.Keep() < |f|
    ensures Parse(p, f + t) == After([ToNext(f)], 0, Parse(p, f[|f| - p.Keep()..] + t))
  {
    hide Judge, PastFrame;
    CandidateShape(p, f);
    JudgeStable(p, f, t);
    PastFrameConcat(p, f, t, |f|);
    PastWhole(p, f);
  }

  lemma BadHead(p: Protocol, f: seq<byte>, t: seq<byte>)
    requires f != [] && Judge(p, f) == Bad(|f|)
    ensures p.Keep() < |f|
    ensures Parse(p, f + t) == After([ToRest(f[0])], 1, Parse(p, f[1..] + (f[|f| - p.Keep()..] + t)))
  {
    hide Judge, PastBad;
    CandidateShape(p, f);
    JudgeStable(p, f, t);
    PastBadConcat(p, f, t, |f|);
    PastWhole(p, f);
    Assoc(f[1..], f[|f| - p.Keep()..], t);
  }

  lemma PastWhole(p: Protocol, f: seq<byte>)
    requires p.Keep() < |f|
    ensures f[..|f|] == f
    ensures PastFrame(p, f, |f|) == f[|f| - p.Keep()..]
    ensures PastBad(p, f, |f|) == f[1..] + f[|f| - p.Keep()..]
  {
  }

  lemma Assoc<T>(a: seq<T>, b: seq<T>, c: seq<T>)
    ensures a + b + c == a + (b + c)
  {
  }

  lemma JunkHead(p: Protocol, s: seq<byte>)
    requires s != [] && Judge(p, s) == Junk
    ensures Parse(p, s) == After([ToRest(s[0])], 0, Parse(p, s[1..]))
  {
  }

  // ---------- shortcuts of the source that skip several bytes at once ----------

  lemma UbxShape(f: seq<byte>)
    requires f != [] && Judge(Ubx, f) == Bad(|f|)
    ensures |f| >= 8 && f[0] == 0xB5 && f[1] == UBX_PREAMBLE1
  {
    hide Checks, UbxPayload;
  }

  /** UBX drops both preamble bytes after a failed checksum; dropping one and looking again does the same. */
  lemma UbxTwoByteResync(f: seq<byte>, t: seq<byte>)
    requires f != [] && Judge(Ubx, f) == Bad(|f|)
    ensures |f| >= 2
    ensures Parse(Ubx, f + t) == After([ToRest(f[0]), ToRest(f[1])], 1, Parse(Ubx, f[2..] + t))
  {
    hide Judge, Parse;
    UbxShape(f);
    BadHead(Ubx, f, t);
    assert f[|f|..] + t == t;
    assert f[1..] + t == [f[1]] + (f[2..] + t);
    JunkPrefix(Ubx, [f[1]], f[2..] + t);
    assert AsRest([f[1]]) == [ToRest(f[1])];
    AfterAfter([ToRest(f[0])], 1, [ToRest(f[1])], 0, Parse(Ubx, f[2..] + t));
    assert [ToRest(f[0])] + [ToRest(f[1])] == [ToRest(f[0]), ToRest(f[1])];
  }

  /**
   NMEA sends a whole candidate to rest when its CR is not followed by LF; dropping it byte by byte, with a
   fresh look at every `$` inside it, does the same.
   */
  lemma {:induction false} NmeaWholeCandidate(c: seq<byte>, t: seq<byte>)
    requires c != [] && IndexOf(c, CR) == |c| - 1 <= NMEA_ROOM
    requires t != [] && t[0] != LF
    ensures Parse(Nmea0183, c + t) == After(AsRest(c), 0, Parse(Nmea0183, t))
  {
    hide Parse, Judge, IndexOf;
    var s := c + t;
    NmeaBrokenEnd(c, t);
    JunkHead(Nmea0183, s);
    assert s[0] == c[0] && s[1..] == c[1..] + t;
    if |c| == 1 {
      assert c[1..] + t == t;
      assert AsRest(c) == [ToRest(c[0])];
    } else {
      assert AsRest(c) == [ToRest(c[0])] + AsRest(c[1..]);
      IndexOfIs(c[1..], CR, |c| - 2);
      NmeaWholeCandidate(c[1..], t);
      AfterAfter([ToRest(c[0])], 0, AsRest(c[1..]), 0, Parse(Nmea0183, t));
    }
  }

  lemma NmeaBrokenEnd(c: seq<byte>, t: seq<byte>)
    requires c != [] && IndexOf(c, CR) == |c| - 1 <= NMEA_ROOM
    requires t != [] && t[0] != LF
    ensures Judge(Nmea0183, c + t) == Junk
  {
    hide Checks, IndexOf;
    IndexOfPrefix(c, t, CR);
    assert (c + t)[|c|] == t[0];
  }

  // ---------- conservation ----------

  /** Output in emission order followed by the held bytes is exactly the input. */
  lemma {:induction false} Conservation(p: Protocol, s: seq<byte>)
    requires p.Keep() == 0
    ensures Spell(Parse(p, s).events) + Parse(p, s).held == s
    decreases Preambles(p, s), |s|
  {
    hide Judge, Preambles, Spell, PastFrame, PastBad, After;
    if s == [] {
      NothingSpelt();
    } else {
      Progress(p, s);
      match Judge(p, s)
      case Junk =>
        Conservation(p, s[1..]);
        SpeltFirst(s, s[1..], ToRest(s[0]), 0, Parse(p, s[1..]));
      case Wait =>
        NothingSpelt();
      case Frame(n) =>
        PastPlain(p, s, n);
        Conservation(p, s[n..]);
        SpeltFirst(s, s[n..], ToNext(s[..n]), 0, Parse(p, s[n..]));
      case Bad(n) =>
        PastPlain(p, s, n);
        Conservation(p, s[1..]);
        SpeltFirst(s, s[1..], ToRest(s[0]), 1, Parse(p, s[1..]));
    }
  }

  lemma SpeltFirst(s: seq<byte>, tail: seq<byte>, e: Event, bad: nat, o: Outcome)
    requires s == BytesOf(e) + tail
    requires Spell(o.events) + o.held == tail
    ensures Spell(After([e], bad, o).events) + After([e], bad, o).held == s
  {
    hide Spell, BytesOf;
    Front(e, o.events);
    Assoc(BytesOf(e), Spell(o.events), o.held);
  }

  /** Without a kept byte the input simply goes on. */
  lemma PastPlain(p: Protocol, s: seq<byte>, n: nat)
    requires p.Keep() == 0 && 0 < n <= |s|
    ensures PastFrame(p, s, n) == s[n..] && PastBad(p, s, n) == s[1..]
  {
  }

  lemma NothingSpelt()
    ensures Spell([]) == [] && RestOf([]) == [] && FramesOf([]) == []
  {
  }

  /** Bytes put out more than once: the LF of every complete sentence, none for the other protocols. */
  function Repeats(p: Protocol, o: Outcome): nat {
    if p.Keep() == 0 then 0 else |FramesOf(o.events)| + o.bad
  }

  /** The length law that covers all four protocols. */
  lemma {:induction false} LengthLaw(p: Protocol, s: seq<byte>)
    ensures var o := Parse(p, s);
            |Spell(o.events)| + |o.held| == |s| + Repeats(p, o)
    decreases Preambles(p, s), |s|
  {
    hide Judge, Preambles, Spell, FramesOf;
    NothingSpelt();
    if s != [] {
      Progress(p, s);
      CandidateShape(p, s);
      match Judge(p, s)
      case Junk =>
        LengthLaw(p, s[1..]);
        Front(ToRest(s[0]), Parse(p, s[1..]).events);
      case Wait =>
      case Frame(n) =>
        LengthLaw(p, PastFrame(p, s, n));
        Front(ToNext(s[..n]), Parse(p, PastFrame(p, s, n)).events);
      case Bad(n) =>
        LengthLaw(p, PastBad(p, s, n));
        Front(ToRest(s[0]), Parse(p, PastBad(p, s, n)).events);
    }
  }

  lemma {:induction false} RestAndFrames(events: seq<Event>)
    ensures |Spell(events)| == |RestOf(events)| + |Flatten(FramesOf(events))|
  {
    if events != [] {
      RestAndFrames(events[1..]);
      if events[0].ToNext? {
        FlattenFront(events[0].frame, FramesOf(events[1..]));
      } else {
        assert [] + FramesOf(events[1..]) == FramesOf(events[1..]);
      }
    }
  }

  lemma {:induction false} FlattenFront<T>(first: seq<T>, chunks: seq<seq<T>>)
    ensures Flatten([first] + chunks) == first + Flatten(chunks)
  {
    if chunks == [] {
      assert [first] + chunks == [first];
      assert [first][..0] == [];
    } else {
      var k := |chunks| - 1;
      assert ([first] + chunks)[..k + 1] == [first] + chunks[..k];
      FlattenFront(first, chunks[..k]);
    }
  }

  /** For MAVLink and RTCM3 a preamble reaches rest exactly when a checksum failed. */
  lemma {:induction false} PreamblesInRest(p: Protocol, s: seq<byte>)
    requires p.Mavlink1? || p.Rtcm3?
    ensures var o := Parse(p, s); Count(RestOf(o.events), p.Preamble()) == o.bad
    decreases Preambles(p, s), |s|
  {
    hide Checks, Preambles, RestOf, RtcmPayload;
    NothingSpelt();
    if s != [] {
      Progress(p, s);
      CountOne(s[0], p.Preamble());
      match Judge(p, s)
      case Junk =>
        PreamblesInRest(p, s[1..]);
        RestFront(p, ToRest(s[0]), Parse(p, s[1..]).events);
      case Wait =>
      case Frame(n) =>
        PreamblesInRest(p, PastFrame(p, s, n));
        RestFront(p, ToNext(s[..n]), Parse(p, PastFrame(p, s, n)).events);
      case Bad(n) =>
        PreamblesInRest(p, PastBad(p, s, n));
        RestFront(p, ToRest(s[0]), Parse(p, PastBad(p, s, n)).events);
    }
  }

  lemma RestFront(p: Protocol, e: Event, events: seq<Event>)
    ensures Count(RestOf([e] + events), p.Preamble())
         == (if e == ToRest(p.Preamble()) then 1 else 0) + Count(RestOf(events), p.Preamble())
  {
    hide RestOf;
    Front(e, events);
    match e
    case ToRest(b) =>
      CountConcat([b], RestOf(events), p.Preamble());
      CountOne(b, p.Preamble());
    case ToNext(_) =>
      assert [] + RestOf(events) == RestOf(events);
  }

  // ---------- only valid frames ----------

  /** A whole, valid frame and nothing else. */
  predicate ValidFrame(p: Protocol, f: seq<byte>) {
    f != [] && Judge(p, f) == Frame(|f|)
  }

  /** The frame at the head is valid on its own. */
  lemma HeadIsValid(p: Protocol, s: seq<byte>)
    requires s != [] && Judge(p, s).Frame?
    ensures Judge(p, s).n <= |s| && ValidFrame(p, s[..Judge(p, s).n])
  {
    hide Checks, IndexOf, RtcmPayload, UbxPayload;
    var n := Judge(p, s).n;
    CandidateShape(p, s);
    var f := s[..n];
    assert f[..n] == f == s[..n];
    if p.Nmea0183? {
      assert s == f + s[n..];
      IndexOfPrefix(f, s[n..], CR);
    }
  }

  /** What reaches next is valid. */
  lemma {:induction false} OnlyValidFrames(p: Protocol, s: seq<byte>)
    ensures forall f :: f in FramesOf(Parse(p, s).events) ==> ValidFrame(p, f)
    decreases Preambles(p, s), |s|
  {
    hide Judge, Preambles, FramesOf, PastFrame, PastBad, ValidFrame;
    NothingSpelt();
    if s != [] {
      Progress(p, s);
      match Judge(p, s)
      case Junk =>
        OnlyValidFrames(p, s[1..]);
        Front(ToRest(s[0]), Parse(p, s[1..]).events);
      case Wait =>
      case Frame(n) =>
        HeadIsValid(p, s);
        OnlyValidFrames(p, PastFrame(p, s, n));
        Front(ToNext(s[..n]), Parse(p, PastFrame(p, s, n)).events);
      case Bad(n) =>
        OnlyValidFrames(p, PastBad(p, s, n));
        Front(ToRest(s[0]), Parse(p, PastBad(p, s, n)).events);
    }
  }

  // ---------- no valid frame is lost ----------

  /** The emitted frame that covers input position `i`, with `i`'s offset inside it. */
  function FrameOver(events: seq<Event>, i: nat): Option<(nat, seq<byte>)> {
    if events == [] then None
    else if i < |BytesOf(events[0])| then
      if events[0].ToNext? then Some((i, events[0].frame)) else None
    else FrameOver(events[1..], i - |BytesOf(events[0])|)
  }

  lemma FrameOverLater(e: Event, events: seq<Event>, i: nat)
    requires i >= |BytesOf(e)|
    ensures FrameOver([e] + events, i) == FrameOver(events, i - |BytesOf(e)|)
  {
    assert ([e] + events)[1..] == events;
  }

  /**
   A valid frame that lies complete at position `i` of the input is emitted there, or `i` is strictly
   inside an earlier emitted frame, or `i` is strictly inside the held, still unfinished candidate.
   */
  lemma {:induction false} NoFrameLost(p: Protocol, s: seq<byte>, i: nat, n: nat)
    requires p.Keep() == 0
    requires 0 < n && i + n <= |s| && Judge(p, s[i..i + n]) == Frame(n)
    ensures var o := Parse(p, s);
            || FrameOver(o.events, i) == Some((0, s[i..i + n]))
            || (FrameOver(o.events, i).Some? && FrameOver(o.events, i).value.0 > 0)
            || i > |s| - |o.held|
    decreases Preambles(p, s), |s|, 1
  {
    hide Judge, Preambles, FrameOver, PastFrame, PastBad;
    Progress(p, s);
    if i == 0 {
      WholeFrame(p, s, n);
      FrameOverFirst(s[..n], Parse(p, PastFrame(p, s, n)).events, 0);
    } else {
      match Judge(p, s)
      case Junk => NoFrameLostLater(p, s, i, n, 1, ToRest(s[0]));
      case Wait =>
      case Frame(m) =>
        PastPlain(p, s, m);
        if i < m {
          FrameOverFirst(s[..m], Parse(p, s[m..]).events, i);
        } else {
          NoFrameLostLater(p, s, i, n, m, ToNext(s[..m]));
        }
      case Bad(m) =>
        PastPlain(p, s, m);
        NoFrameLostLater(p, s, i, n, 1, ToRest(s[0]));
    }
  }

  /** The frame lies in what remains after the first event. */
  lemma {:induction false} NoFrameLostLater(p: Protocol, s: seq<byte>, i: nat, n: nat, m: nat, e: Event)
    requires p.Keep() == 0
    requires 0 < n && i + n <= |s| && Judge(p, s[i..i + n]) == Frame(n)
    requires 0 < m <= i && |BytesOf(e)| == m
    requires Preambles(p, s[m..]) <= Preambles(p, s)
    ensures var o := Parse(p, s[m..]); var events := [e] + o.events;
            || FrameOver(events, i) == Some((0, s[i..i + n]))
            || (FrameOver(events, i).Some? && FrameOver(events, i).value.0 > 0)
            || i > |s| - |o.held|
    decreases Preambles(p, s), |s|, 0
  {
    hide Judge, Preambles, FrameOver, Parse;
    Tail(s, m, i, n);
    NoFrameLost(p, s[m..], i - m, n);
    FrameOverLater(e, Parse(p, s[m..]).events, i);
  }

  lemma WholeFrame(p: Protocol, s: seq<byte>, n: nat)
    requires 0 < n <= |s| && Judge(p, s[0..n]) == Frame(n)
    ensures Judge(p, s) == Frame(n)
  {
    hide Judge;
    assert s == s[0..n] + s[n..];
    JudgeStable(p, s[0..n], s[n..]);
  }

  lemma Tail(s: seq<byte>, m: nat, i: nat, n: nat)
    requires m <= i && i + n <= |s|
    ensures s[m..][i - m..i - m + n] == s[i..i + n]
  {
  }

  lemma FrameOverFirst(f: seq<byte>, events: seq<Event>, i: nat)
    requires i < |f|
    ensures FrameOver([ToNext(f)] + events, i) == Some((i, f))
  {
  }

  // ---------- round trip ----------

  /** A well-formed frame and the junk before it. */
  datatype Piece = Piece(junk: seq<byte>, frame: seq<byte>)

  predicate WellFormed(p: Protocol, piece: Piece) {
    && p.Preamble() !in piece.junk
    && piece.frame != []
    && Judge(p, piece.frame) == Frame(|piece.frame|)
  }

  function Stream(pieces: seq<Piece>, tail: seq<byte>): seq<byte> {
    if pieces == [] then tail else pieces[0].junk + (pieces[0].frame + Stream(pieces[1..], tail))
  }

  function Frames(pieces: seq<Piece>): seq<seq<byte>> {
    seq(|pieces|, i requires 0 <= i < |pieces| => pieces[i].frame)
  }

  /** The junk in order, with what a frame keeps (the LF of a sentence) after each frame. */
  function JunkOf(p: Protocol, pieces: seq<Piece>, tail: seq<byte>): seq<byte> {
    if pieces == [] then tail
    else
      var f := pieces[0].frame;
      pieces[0].junk + (f[if p.Keep() <= |f| then |f| - p.Keep() else 0..] + JunkOf(p, pieces[1..], tail))
  }

  lemma KeepIsJunk(p: Protocol, f: seq<byte>)
    requires f != [] && Judge(p, f) == Frame(|f|)
    ensures p.Keep() <= |f| && p.Preamble() !in f[|f| - p.Keep()..]
  {
    hide Judge;
    CandidateShape(p, f);
  }

  /** The events of one piece. */
  function PieceEvents(p: Protocol, piece: Piece): seq<Event>
    requires p.Keep() <= |piece.frame|
  {
    AsRest(piece.junk) + ([ToNext(piece.frame)] + AsRest(piece.frame[|piece.frame| - p.Keep()..]))
  }

  lemma ParsePiece(p: Protocol, piece: Piece, later: seq<byte>)
    requires WellFormed(p, piece)
    ensures p.Keep() <= |piece.frame|
    ensures Parse(p, piece.junk + (piece.frame + later)) == After(PieceEvents(p, piece), 0, Parse(p, later))
  {
    hide Judge, Parse, AsRest, After;
    var junk, f := piece.junk, piece.frame;
    KeepIsJunk(p, f);
    var kept := f[|f| - p.Keep()..];
    JunkPrefix(p, junk, f + later);
    FrameHead(p, f, later);
    JunkPrefix(p, kept, later);
    AfterAfter([ToNext(f)], 0, AsRest(kept), 0, Parse(p, later));
    AfterAfter(AsRest(junk), 0, [ToNext(f)] + AsRest(kept), 0, Parse(p, later));
  }

  lemma PieceFrames(p: Protocol, piece: Piece, events: seq<Event>)
    requires p.Keep() <= |piece.frame|
    ensures FramesOf(PieceEvents(p, piece) + events) == [piece.frame] + FramesOf(events)
  {
    hide FramesOf, RestOf, AsRest;
    var kept := piece.frame[|piece.frame| - p.Keep()..];
    var es := [ToNext(piece.frame)] + AsRest(kept);
    FramesConcat(AsRest(piece.junk) + es, events);
    FramesConcat(AsRest(piece.junk), es);
    Front(ToNext(piece.frame), AsRest(kept));
    AsRestReads(piece.junk);
    AsRestReads(kept);
    assert [] + ([piece.frame] + []) == [piece.frame];
  }

  lemma PieceRest(p: Protocol, piece: Piece, events: seq<Event>)
    requires p.Keep() <= |piece.frame|
    ensures RestOf(PieceEvents(p, piece) + events)
         == piece.junk + (piece.frame[|piece.frame| - p.Keep()..] + RestOf(events))
  {
    hide FramesOf, RestOf, AsRest;
    var kept := piece.frame[|piece.frame| - p.Keep()..];
    var es := [ToNext(piece.frame)] + AsRest(kept);
    RestConcat(AsRest(piece.junk) + es, events);
    RestConcat(AsRest(piece.junk), es);
    Front(ToNext(piece.frame), AsRest(kept));
    AsRestReads(piece.junk);
    AsRestReads(kept);
    assert [] + kept == kept;
    Assoc(piece.junk, kept, RestOf(events));
  }

  lemma {:induction false} RoundTrip(p: Protocol, pieces: seq<Piece>, tail: seq<byte>)
    requires forall i :: 0 <= i < |pieces| ==> WellFormed(p, pieces[i])
    requires p.Preamble() !in tail
    ensures var o := Parse(p, Stream(pieces, tail));
            && FramesOf(o.events) == Frames(pieces)
            && RestOf(o.events) == JunkOf(p, pieces, tail)
            && o.held == [] && o.bad == 0
  {
    hide WellFormed, Parse, FramesOf, RestOf, PieceEvents;
    if pieces == [] {
      JunkOnly(p, tail);
    } else {
      ParsePiece(p, pieces[0], Stream(pieces[1..], tail));
      RoundTrip(p, pieces[1..], tail);
      var o := Parse(p, Stream(pieces[1..], tail));
      PieceFrames(p, pieces[0], o.events);
      PieceRest(p, pieces[0], o.events);
      assert Frames(pieces) == [pieces[0].frame] + Frames(pieces[1..]);
    }
  }

  lemma JunkOnly(p: Protocol, junk: seq<byte>)
    requires p.Preamble() !in junk
    ensures Parse(p, junk) == Outcome(AsRest(junk), [], 0)
    ensures FramesOf(AsRest(junk)) == [] && RestOf(AsRest(junk)) == junk
  {
    hide Judge;
    assert junk + [] == junk;
    JunkPrefix(p, junk, []);
    AsRestReads(junk);
  }

  /** The same for a filter's run, under every chunking of the stream. */
  lemma RoundTripRun(p: Protocol, pieces: seq<Piece>, tail: seq<byte>, chunks: seq<seq<byte>>)
    requires forall i :: 0 <= i < |pieces| ==> WellFormed(p, pieces[i])
    requires p.Preamble() !in tail
    requires Flatten(chunks) == Stream(pieces, tail)
    ensures var o := Run(p, chunks);
            && FramesOf(o.events) == Frames(pieces)
            && RestOf(o.events) == JunkOf(p, pieces, tail)
            && o.held == [] && o.bad == 0
  {
    hide Judge, Parse;
    ChunkIndependence(p, chunks);
    RoundTrip(p, pieces, tail);
  }
}
