/** How the specification moves under the steps a filter takes: one lemma for each kind of step. */
module FeedLaws {
  import opened Bytes
  import opened Protocols
  import opened Parser
  import opened ParserLaws

  /** Only the held bytes followed by the chunk matter, not where one ends and the other begins. */
  lemma FeedMove(p: Protocol, events: seq<Event>, bad: nat,
                 h1: seq<byte>, t1: seq<byte>, h2: seq<byte>, t2: seq<byte>)
    requires h1 + t1 == h2 + t2
    ensures Feed(p, Outcome(events, h1, bad), t1) == Feed(p, Outcome(events, h2, bad), t2)
  {
    hide Parse;
  }

  lemma FeedAfter(p: Protocol, events: seq<Event>, bad: nat, more: seq<Event>, k: nat, s: seq<byte>, t: seq<byte>)
    requires Parse(p, s) == After(more, k, Parse(p, t))
    ensures Feed(p, Outcome(events, [], bad), s) == Feed(p, Outcome(events + more, [], bad + k), t)
  {
    hide Parse;
    assert [] + s == s && [] + t == t;
    Assoc(events, more, Parse(p, t).events);
  }

  /** Bytes before the next preamble go to rest. */
  lemma FeedJunk(p: Protocol, events: seq<Event>, bad: nat, junk: seq<byte>, t: seq<byte>)
    requires p.Preamble() !in junk
    ensures Feed(p, Outcome(events, [], bad), junk + t) == Feed(p, Outcome(events + AsRest(junk), [], bad), t)
  {
    hide Parse, AsRest;
    JunkPrefix(p, junk, t);
    FeedAfter(p, events, bad, AsRest(junk), 0, junk + t, t);
  }

  /** Bytes that leave the candidate unfinished are held. */
  lemma FeedWait(p: Protocol, o: Outcome, chunk: seq<byte>)
    requires o.held + chunk != [] && Judge(p, o.held + chunk) == Wait
    ensures Feed(p, o, chunk) == Outcome(o.events, o.held + chunk, o.bad)
  {
    hide Judge;
    assert o.events + [] == o.events;
  }

  /** Held bytes are fed again without effect. */
  lemma FeedEmpty(p: Protocol, o: Outcome)
    requires o.held != [] ==> Judge(p, o.held) == Wait
    ensures Feed(p, o, []) == o
  {
    hide Judge;
    assert o.held + [] == o.held && o.events + [] == o.events;
  }

  lemma FeedNothing(p: Protocol, events: seq<Event>, bad: nat)
    ensures Feed(p, Outcome(events, [], bad), []) == Outcome(events, [], bad)
  {
    assert Parse(p, []) == FRESH;
    assert events + [] == events;
  }

  lemma FeedJunkOnly(p: Protocol, events: seq<Event>, bad: nat, junk: seq<byte>)
    requires p.Preamble() !in junk
    ensures Feed(p, Outcome(events, [], bad), junk) == Outcome(events + AsRest(junk), [], bad)
  {
    hide Feed, AsRest;
    assert junk + [] == junk;
    FeedJunk(p, events, bad, junk, []);
    FeedNothing(p, events + AsRest(junk), bad);
  }

  lemma PreambleWaits(p: Protocol)
    ensures Judge(p, [p.Preamble()]) == Wait
  {
    assert [p.Preamble()][1..] == [];
  }

  /** State BEFORE: junk goes to rest and the preamble is held. */
  lemma FeedPreamble(p: Protocol, events: seq<Event>, bad: nat, junk: seq<byte>)
    requires p.Preamble() !in junk
    ensures Feed(p, Outcome(events, [], bad), junk + [p.Preamble()])
         == Outcome(events + AsRest(junk), [p.Preamble()], bad)
  {
    hide Feed, AsRest, Judge;
    FeedJunk(p, events, bad, junk, [p.Preamble()]);
    PreambleWaits(p);
    assert [] + [p.Preamble()] == [p.Preamble()];
    FeedWait(p, Outcome(events + AsRest(junk), [], bad), [p.Preamble()]);
  }

  /** A complete candidate with a valid checksum goes to next. */
  lemma FeedFrame(p: Protocol, events: seq<Event>, bad: nat, f: seq<byte>, t: seq<byte>)
    requires f != [] && Judge(p, f) == Frame(|f|)
    ensures p.Keep() < |f|
    ensures Feed(p, Outcome(events, f, bad), t)
         == Feed(p, Outcome(events + [ToNext(f)], [], bad), f[|f| - p.Keep()..] + t)
  {
    hide Parse, Judge, Feed;
    FrameHead(p, f, t);
    FeedMove(p, events, bad, f, t, [], f + t);
    FeedAfter(p, events, bad, [ToNext(f)], 0, f + t, f[|f| - p.Keep()..] + t);
  }

  /** A complete candidate with a bad checksum loses its first byte. */
  lemma FeedBad(p: Protocol, events: seq<Event>, bad: nat, f: seq<byte>, t: seq<byte>)
    requires f != [] && Judge(p, f) == Bad(|f|)
    ensures p.Keep() < |f|
    ensures Feed(p, Outcome(events, f, bad), t)
         == Feed(p, Outcome(events + [ToRest(f[0])], [], bad + 1), f[1..] + (f[|f| - p.Keep()..] + t))
  {
    hide Parse, Judge, Feed;
    BadHead(p, f, t);
    FeedMove(p, events, bad, f, t, [], f + t);
    FeedAfter(p, events, bad, [ToRest(f[0])], 1, f + t, f[1..] + (f[|f| - p.Keep()..] + t));
  }

  /** A candidate that turns out to be no frame loses its first byte. */
  lemma FeedNoFrame(p: Protocol, events: seq<Event>, bad: nat, h: seq<byte>, t: seq<byte>)
    requires h != [] && Judge(p, h + t) == Junk
    ensures Feed(p, Outcome(events, h, bad), t) == Feed(p, Outcome(events + [ToRest(h[0])], [], bad), h[1..] + t)
  {
    hide Parse, Judge, Feed;
    JunkHead(p, h + t);
    assert (h + t)[0] == h[0] && (h + t)[1..] == h[1..] + t;
    FeedMove(p, events, bad, h, t, [], h + t);
    FeedAfter(p, events, bad, [ToRest(h[0])], 0, h + t, h[1..] + t);
  }

  /** One more turn of a loop that has fed `tail[..i]` so far. */
  lemma FeedTurn(p: Protocol, o: Outcome, before: Outcome, after: Outcome,
                 tail: seq<byte>, now: seq<byte>, i: nat, n: nat)
    requires i <= |tail| && now == tail[i..] && n <= |now|
    requires before == Feed(p, o, tail[..i]) && after == Feed(p, before, now[..n])
    ensures after == Feed(p, o, tail[..i + n])
    ensures now[n..] == tail[i + n..]
  {
    hide Feed;
    FeedSplit(p, o, tail[..i], now[..n]);
    assert tail[..i] + now[..n] == tail[..i + n];
  }

  /** What is still to do after `n` bytes of `rem`. */
  lemma FeedRest(p: Protocol, before: Outcome, after: Outcome, rem: seq<byte>, n: nat)
    requires n <= |rem| && after == Feed(p, before, rem[..n])
    ensures Feed(p, after, rem[n..]) == Feed(p, before, rem)
  {
    hide Feed;
    FeedSplit(p, before, rem[..n], rem[n..]);
    assert rem[..n] + rem[n..] == rem;
  }

  lemma Slices(tail: seq<byte>, i: nat, n: nat, len: nat)
    requires i + n <= len <= |tail|
    ensures tail[i..][..len - i][n..] == tail[i + n..][..len - (i + n)]
    ensures tail[i..][n..] == tail[i + n..]
  {
  }

  // ---------- frames that keep nothing ----------

  lemma FeedFrameDone(p: Protocol, events: seq<Event>, bad: nat, f: seq<byte>)
    requires p.Keep() == 0 && f != [] && Judge(p, f) == Frame(|f|)
    ensures Feed(p, Outcome(events, f, bad), []) == Outcome(events + [ToNext(f)], [], bad)
  {
    hide Judge, Feed;
    FeedFrame(p, events, bad, f, []);
    assert f[|f|..] + [] == [];
    FeedNothing(p, events + [ToNext(f)], bad);
  }

  lemma FeedBadDone(p: Protocol, events: seq<Event>, bad: nat, f: seq<byte>)
    requires p.Keep() == 0 && f != [] && Judge(p, f) == Bad(|f|)
    ensures Feed(p, Outcome(events, f, bad), []) == Feed(p, Outcome(events + [ToRest(f[0])], [], bad + 1), f[1..])
  {
    hide Judge, Feed;
    FeedBad(p, events, bad, f, []);
    assert f[1..] + (f[|f|..] + []) == f[1..];
  }

  /** UBX: both preamble bytes go to rest at once. */
  lemma FeedUbxBadDone(events: seq<Event>, bad: nat, f: seq<byte>)
    requires f != [] && Judge(Ubx, f) == Bad(|f|)
    ensures |f| >= 2
    ensures Feed(Ubx, Outcome(events, f, bad), [])
         == Feed(Ubx, Outcome(events + [ToRest(f[0]), ToRest(f[1])], [], bad + 1), f[2..])
  {
    hide Judge, Feed, Parse;
    UbxTwoByteResync(f, []);
    FeedMove(Ubx, events, bad, f, [], [], f);
    assert f + [] == f && f[2..] + [] == f[2..];
    FeedAfter(Ubx, events, bad, [ToRest(f[0]), ToRest(f[1])], 1, f, f[2..]);
  }

  // ---------- sentences ----------

  /** A complete sentence goes to next; its LF, the next byte of the stream, is still to come. */
  lemma FeedSentence(events: seq<Event>, bad: nat, c: seq<byte>, t: seq<byte>)
    requires t != [] && t[0] == LF && Judge(Nmea0183, c + [LF]) == Frame(|c| + 1)
    ensures Feed(Nmea0183, Outcome(events, c, bad), t)
         == Feed(Nmea0183, Outcome(events + [ToNext(c + [LF])], [], bad), t)
  {
    hide Judge, Feed;
    var f := c + [LF];
    FeedMove(Nmea0183, events, bad, c, t, f, t[1..]);
    FeedFrame(Nmea0183, events, bad, f, t[1..]);
    assert f[|f| - 1..] + t[1..] == t;
  }

  /** A failed sentence loses its `$`; the others, the LF among them, are seen again before the stream's LF. */
  lemma FeedBadSentence(events: seq<Event>, bad: nat, c: seq<byte>, t: seq<byte>)
    requires c != [] && t != [] && t[0] == LF && Judge(Nmea0183, c + [LF]) == Bad(|c| + 1)
    ensures Feed(Nmea0183, Outcome(events, c, bad), t)
         == Feed(Nmea0183, Feed(Nmea0183, Outcome(events + [ToRest(c[0])], [], bad + 1), (c + [LF])[1..]), t)
  {
    hide Judge, Feed;
    var f := c + [LF];
    FeedMove(Nmea0183, events, bad, c, t, f, t[1..]);
    FeedBad(Nmea0183, events, bad, f, t[1..]);
    assert f[|f| - 1..] + t[1..] == t;
    FeedSplit(Nmea0183, Outcome(events + [ToRest(c[0])], [], bad + 1), f[1..], t);
  }

  /** A candidate whose CR is not followed by LF goes to rest whole. */
  lemma FeedBrokenSentence(events: seq<Event>, bad: nat, c: seq<byte>, t: seq<byte>)
    requires c != [] && IndexOf(c, CR) == |c| - 1 <= NMEA_ROOM
    requires t != [] && t[0] != LF
    ensures Feed(Nmea0183, Outcome(events, c, bad), t) == Feed(Nmea0183, Outcome(events + AsRest(c), [], bad), t)
  {
    hide Parse, Feed, AsRest, IndexOf, After;
    NmeaWholeCandidate(c, t);
    FeedMove(Nmea0183, events, bad, c, t, [], c + t);
    FeedAfter(Nmea0183, events, bad, AsRest(c), 0, c + t, t);
  }

  /** It does not matter when a failed checksum is counted. */
  lemma FeedCount(p: Protocol, o: Outcome, chunk: seq<byte>)
    ensures Feed(p, o.(bad := o.bad + 1), chunk) == Feed(p, o, chunk).(bad := Feed(p, o, chunk).bad + 1)
  {
    hide Parse;
  }

  lemma NmeaTooLong(s: seq<byte>)
    requires s != [] && s[0] == Nmea0183.Preamble() && IndexOf(s, CR) > NMEA_ROOM
    ensures Judge(Nmea0183, s) == Junk
  {
    hide Checks, IndexOf;
  }

  lemma NmeaUnfinished(s: seq<byte>)
    requires s != [] && s[0] == Nmea0183.Preamble() && IndexOf(s, CR) <= NMEA_ROOM && IndexOf(s, CR) + 1 >= |s|
    ensures Judge(Nmea0183, s) == Wait
  {
    hide Checks, IndexOf;
  }
}
