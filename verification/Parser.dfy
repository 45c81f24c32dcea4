/**
 The specification of a stream filter: a greedy parser on the whole input, with no buffer, no state and
 no chunks. A head that starts no frame goes to rest one byte at a time; a complete candidate goes to
 next when its checksum holds, and otherwise loses its first byte and is looked at again.
 */
module Parser {
  import opened Bytes
  import opened Protocols

  /** What a filter puts out, in order: frames to next, single bytes to rest. */
  datatype Event = ToNext(frame: seq<byte>) | ToRest(b: byte)

  /** Everything put out so far, the bytes held back, and the number of failed checksums. */
  datatype Outcome = Outcome(events: seq<Event>, held: seq<byte>, bad: nat)

  const FRESH := Outcome([], [], 0)

  function Preambles(p: Protocol, s: seq<byte>): nat {
    Count(s, p.Preamble())
  }

  /** `r` happening after the events of `o`. */
  function Then(o: Outcome, r: Outcome): Outcome {
    Outcome(o.events + r.events, r.held, o.bad + r.bad)
  }

  function After(events: seq<Event>, bad: nat, r: Outcome): Outcome {
    Outcome(events + r.events, r.held, bad + r.bad)
  }

  /** What is left of the input after a frame of `n` bytes: a sentence's LF is seen again. */
  function PastFrame(p: Protocol, s: seq<byte>, n: nat): seq<byte>
    requires p.Keep() <= n <= |s|
  {
    s[n - p.Keep()..]
  }

  /** What is looked at again after a candidate of `n` bytes fails: all but its first byte, its LF twice. */
  function PastBad(p: Protocol, s: seq<byte>, n: nat): seq<byte>
    requires p.Keep() < n <= |s|
  {
    s[1..n] + s[n - p.Keep()..]
  }

  lemma PreamblesConcat(p: Protocol, a: seq<byte>, b: seq<byte>)
    ensures Preambles(p, a + b) == Preambles(p, a) + Preambles(p, b)
  {
    CountConcat(a, b, p.Preamble());
  }

  lemma Split(p: Protocol, s: seq<byte>, i: nat)
    requires i <= |s|
    ensures Preambles(p, s) == Preambles(p, s[..i]) + Preambles(p, s[i..])
  {
    hide Preambles;
    assert s == s[..i] + s[i..];
    PreamblesConcat(p, s[..i], s[i..]);
  }

  lemma OnePreamble(p: Protocol, b: byte)
    ensures Preambles(p, [b]) == if b == p.Preamble() then 1 else 0
  {
    CountOne(b, p.Preamble());
  }

  lemma NoPreamble(p: Protocol)
    ensures Preambles(p, []) == 0
  {
  }

  lemma Progress(p: Protocol, s: seq<byte>)
    requires s != []
    ensures Preambles(p, s[1..]) <= Preambles(p, s)
    ensures var v := Judge(p, s);
            v.Frame? ==> p.Keep() < v.n <= |s| && Preambles(p, PastFrame(p, s, v.n)) <= Preambles(p, s)
                         && |PastFrame(p, s, v.n)| < |s|
    ensures var v := Judge(p, s);
            v.Bad? ==> p.Keep() < v.n <= |s| && Preambles(p, PastBad(p, s, v.n)) < Preambles(p, s)
  {
    hide Judge, Preambles;
    CandidateShape(p, s);
    var v := Judge(p, s);
    Split(p, s, 1);
    OnePreamble(p, s[0]);
    assert s[..1] == [s[0]];
    if v.Frame? {
      Split(p, s, v.n - p.Keep());
    }
    if v.Bad? {
      var m := v.n - p.Keep();
      Split(p, s, m);
      Split(p, s[..m], 1);
      assert s[..m][..1] == [s[0]];
      PreamblesConcat(p, s[1..v.n], s[m..]);
      Split(p, s[1..v.n], m - 1);
      assert s[1..v.n][..m - 1] == s[..m][1..];
      if p.Keep() == 1 {
        assert s[1..v.n][m - 1..] == [s[m]];
        OnePreamble(p, s[m]);
      } else {
        assert s[1..v.n][m - 1..] == [];
        NoPreamble(p);
      }
    }
  }

  function Parse(p: Protocol, s: seq<byte>): Outcome
    decreases Preambles(p, s), |s|
  {
    if s == [] then FRESH
    else
      Progress(p, s);
      match Judge(p, s)
      case Junk => After([ToRest(s[0])], 0, Parse(p, s[1..]))
      case Wait => Outcome([], s, 0)
      case Frame(n) => After([ToNext(s[..n])], 0, Parse(p, PastFrame(p, s, n)))
      case Bad(n) => After([ToRest(s[0])], 1, Parse(p, PastBad(p, s, n)))
  }

  // ---------- parsing in chunks ----------

  /** The filter's step: what was held, followed by the chunk, parsed on top of what came before. */
  function Feed(p: Protocol, o: Outcome, chunk: seq<byte>): Outcome {
    Then(o, Parse(p, o.held + chunk))
  }

  /** The filter's whole run from its initial state. */
  function Run(p: Protocol, chunks: seq<seq<byte>>): Outcome {
    if chunks == [] then FRESH else Feed(p, Run(p, chunks[..|chunks| - 1]), chunks[|chunks| - 1])
  }

  lemma RunOneMore(p: Protocol, chunks: seq<seq<byte>>, chunk: seq<byte>)
    ensures Run(p, chunks + [chunk]) == Feed(p, Run(p, chunks), chunk)
  {
    hide Feed;
    assert (chunks + [chunk])[..|chunks|] == chunks;
  }

  lemma AfterFeed(p: Protocol, events: seq<Event>, bad: nat, o: Outcome, chunk: seq<byte>)
    ensures Feed(p, After(events, bad, o), chunk) == After(events, bad, Feed(p, o, chunk))
  {
    hide Parse;
  }

  lemma ThenAssoc(o: Outcome, q: Outcome, r: Outcome)
    ensures Then(Then(o, q), r) == Then(o, Then(q, r))
  {
  }

  /** Parsing may stop anywhere and go on from what was held. */
  lemma {:induction false} Resume(p: Protocol, a: seq<byte>, b: seq<byte>)
    ensures Parse(p, a + b) == Feed(p, Parse(p, a), b)
    decreases Preambles(p, a), |a|
  {
    hide Judge, Preambles, Feed, After, PastFrame, PastBad;
    if a == [] {
      assert a + b == b;
      FeedFresh(p, b);
    } else {
      var v := Judge(p, a);
      Progress(p, a);
      if v.Wait? {
        WaitFeeds(p, a, b);
      } else {
        JudgeStable(p, a, b);
        match v
        case Junk =>
          assert (a + b)[1..] == a[1..] + b;
          Resume(p, a[1..], b);
          AfterFeed(p, [ToRest(a[0])], 0, Parse(p, a[1..]), b);
        case Frame(n) =>
          PastFrameConcat(p, a, b, n);
          Resume(p, PastFrame(p, a, n), b);
          AfterFeed(p, [ToNext(a[..n])], 0, Parse(p, PastFrame(p, a, n)), b);
        case Bad(n) =>
          PastBadConcat(p, a, b, n);
          Resume(p, PastBad(p, a, n), b);
          AfterFeed(p, [ToRest(a[0])], 1, Parse(p, PastBad(p, a, n)), b);
      }
    }
  }

  lemma PastFrameConcat(p: Protocol, a: seq<byte>, b: seq<byte>, n: nat)
    requires p.Keep() <= n <= |a|
    ensures (a + b)[..n] == a[..n]
    ensures PastFrame(p, a + b, n) == PastFrame(p, a, n) + b
  {
  }

  lemma PastBadConcat(p: Protocol, a: seq<byte>, b: seq<byte>, n: nat)
    requires p.Keep() < n <= |a|
    ensures PastBad(p, a + b, n) == PastBad(p, a, n) + b
  {
    assert (a + b)[1..n] == a[1..n];
  }

  lemma FeedFresh(p: Protocol, chunk: seq<byte>)
    ensures Feed(p, FRESH, chunk) == Parse(p, chunk)
  {
    hide Parse;
    assert [] + chunk == chunk;
  }

  lemma WaitFeeds(p: Protocol, a: seq<byte>, b: seq<byte>)
    requires a != [] && Judge(p, a) == Wait
    ensures Feed(p, Parse(p, a), b) == Parse(p, a + b)
  {
    hide Judge;
    assert Parse(p, a) == Outcome([], a, 0);
    FeedWaiting(p, a, b);
  }

  lemma FeedWaiting(p: Protocol, a: seq<byte>, b: seq<byte>)
    ensures Feed(p, Outcome([], a, 0), b) == Parse(p, a + b)
  {
    hide Parse;
  }

  /** Two chunks fed one after the other do what their concatenation does. */
  lemma FeedSplit(p: Protocol, o: Outcome, a: seq<byte>, b: seq<byte>)
    ensures Feed(p, Feed(p, o, a), b) == Feed(p, o, a + b)
  {
    hide Parse, Judge;
    var q := Parse(p, o.held + a);
    Resume(p, o.held + a, b);
    assert o.held + a + b == o.held + (a + b);
    ThenAssoc(o, q, Parse(p, q.held + b));
  }

  /** What is held is an unfinished candidate: parsing it again changes nothing. */
  lemma {:induction false} HeldWaits(p: Protocol, s: seq<byte>)
    ensures var h := Parse(p, s).held; h != [] ==> Judge(p, h) == Wait
    ensures var h := Parse(p, s).held; Parse(p, h) == Outcome([], h, 0)
    decreases Preambles(p, s), |s|
  {
    hide Judge, Preambles;
    if s != [] {
      Progress(p, s);
      match Judge(p, s)
      case Junk => HeldWaits(p, s[1..]);
      case Wait =>
      case Frame(n) => HeldWaits(p, PastFrame(p, s, n));
      case Bad(n) => HeldWaits(p, PastBad(p, s, n));
    }
  }

  /** However the input is cut into chunks, a filter's run is the parse of the whole input. */
  lemma {:induction false} ChunkIndependence(p: Protocol, chunks: seq<seq<byte>>)
    ensures Run(p, chunks) == Parse(p, Flatten(chunks))
  {
    hide Parse, Judge;
    if chunks == [] {
      assert Flatten(chunks) == [];
      ParseNothing(p);
    } else {
      var init, last := chunks[..|chunks| - 1], chunks[|chunks| - 1];
      ChunkIndependence(p, init);
      Resume(p, Flatten(init), last);
    }
  }

  lemma ParseNothing(p: Protocol)
    ensures Parse(p, []) == FRESH
  {
  }
}
