/** Frames of several protocols and junk in one stream: each frame comes out of a chain at its own stage. */
module MixedStreams {
  import opened Bytes
  import opened Protocols
  import opened Parser
  import opened ParserLaws
  import opened NmeaLines
  import opened NmeaLaws
  import opened Chain

  /** Some bytes of the stream and the stage they are for; junk is for a stage beyond the last. */
  datatype Item = Item(stage: nat, bytes: seq<byte>)

  /** A recogniser for `p` lets these bytes through whole, though there may be candidates among them. */
  predicate Unnoticed(p: Protocol, s: seq<byte>) {
    var o := Parse(p, s);
    o.held == [] && FramesOf(o.events) == [] && RestOf(o.events) == s
  }

  /** Let through by every earlier stage, and a well-formed frame for its own stage. */
  predicate Fits(ps: seq<Protocol>, item: Item) {
    && (forall j :: 0 <= j < |ps| && j < item.stage ==> Unnoticed(ps[j], item.bytes))
    && (item.stage < |ps| ==> item.bytes != [] && Judge(ps[item.stage], item.bytes) == Frame(|item.bytes|))
  }

  function Spelled(items: seq<Item>): seq<byte> {
    if items == [] then [] else items[0].bytes + Spelled(items[1..])
  }

  /** The frames for one stage, in order. */
  function FramesFor(items: seq<Item>, stage: nat): seq<seq<byte>> {
    if items == [] then []
    else (if items[0].stage == stage then [items[0].bytes] else []) + FramesFor(items[1..], stage)
  }

  /** What of a frame is seen again as stream data: the LF of a sentence. */
  function KeptOf(p: Protocol, f: seq<byte>): seq<byte> {
    if p.Keep() <= |f| then f[|f| - p.Keep()..] else []
  }

  /** What no stage takes: the junk, and the LF of each sentence. */
  function LeftOver(ps: seq<Protocol>, items: seq<Item>): seq<byte> {
    if items == [] then []
    else
      var item := items[0];
      (if item.stage < |ps| then KeptOf(ps[item.stage], item.bytes) else item.bytes) + LeftOver(ps, items[1..])
  }

  /** How many checksums fail at one stage: those inside items of later stages and junk. */
  function FailuresAt(p: Protocol, items: seq<Item>, stage: nat): nat {
    if items == [] then 0
    else (if items[0].stage > stage then Parse(p, items[0].bytes).bad else 0) + FailuresAt(p, items[1..], stage)
  }

  // ---------- what a stage lets through ----------

  /** Bytes without a preamble are let through, and no checksum fails. */
  lemma PreambleFree(p: Protocol, s: seq<byte>)
    requires p.Preamble() !in s
    ensures Unnoticed(p, s) && Parse(p, s).bad == 0
  {
    hide Parse, AsRest;
    JunkOnly(p, s);
  }

  /** Only junk from earlier stages: then no checksum fails anywhere. */
  lemma {:induction false} NoFailures(p: Protocol, items: seq<Item>, stage: nat)
    requires forall item :: item in items && item.stage > stage ==> p.Preamble() !in item.bytes
    ensures FailuresAt(p, items, stage) == 0
  {
    hide Parse;
    if items != [] {
      assert items[0] in items;
      if items[0].stage > stage {
        PreambleFree(p, items[0].bytes);
      }
      NoFailures(p, items[1..], stage);
    }
  }

  lemma {:induction false} SpellWithoutFrames(events: seq<Event>)
    requires FramesOf(events) == []
    ensures Spell(events) == RestOf(events)
  {
    if events != [] {
      SpellWithoutFrames(events[1..]);
    }
  }

  /** Bytes are let through exactly when they give no frame, leave nothing held and no LF is repeated. */
  lemma UnnoticedIff(p: Protocol, s: seq<byte>)
    ensures var o := Parse(p, s);
            Unnoticed(p, s) <==> o.held == [] && FramesOf(o.events) == [] && Repeats(p, o) == 0
  {
    hide Parse, FramesOf, RestOf, Spell;
    var o := Parse(p, s);
    LengthLaw(p, s);
    if o.held == [] && FramesOf(o.events) == [] {
      SpellWithoutFrames(o.events);
      if Repeats(p, o) == 0 {
        if p.Nmea0183? {
          RepeatsIffEnded(s);
        } else {
          Conservation(p, s);
        }
        assert Spell(o.events) + [] == s;
      }
    }
  }

  lemma UnnoticedParse(p: Protocol, s: seq<byte>, later: seq<byte>)
    requires Unnoticed(p, s)
    ensures var o, q := Parse(p, s + later), Parse(p, later);
            && FramesOf(o.events) == FramesOf(q.events)
            && RestOf(o.events) == s + RestOf(q.events)
            && o.held == q.held && o.bad == Parse(p, s).bad + q.bad
  {
    hide Parse, FramesOf, RestOf;
    var a, q := Parse(p, s), Parse(p, later);
    Resume(p, s, later);
    assert [] + later == later;
    FramesConcat(a.events, q.events);
    RestConcat(a.events, q.events);
    assert [] + FramesOf(q.events) == FramesOf(q.events);
  }

  // ---------- one stage ----------

  /** An item as the stages behind the first see it. */
  function Passed(ps: seq<Protocol>, item: Item): Item
    requires ps != []
  {
    if item.stage == 0 then Item(|ps| - 1, KeptOf(ps[0], item.bytes)) else Item(item.stage - 1, item.bytes)
  }

  function PassedAll(ps: seq<Protocol>, items: seq<Item>): seq<Item>
    requires ps != []
  {
    if items == [] then [] else [Passed(ps, items[0])] + PassedAll(ps, items[1..])
  }

  /** The kept bytes hold no preamble of any protocol. */
  lemma KeptIsJunk(p: Protocol, q: Protocol, f: seq<byte>)
    requires f != [] && Judge(p, f) == Frame(|f|)
    ensures p.Keep() <= |f| && q.Preamble() !in KeptOf(p, f)
  {
    hide Judge;
    CandidateShape(p, f);
    if p.Nmea0183? {
      SentenceParts(f, |f|);
      assert KeptOf(p, f) == [LF];
    }
  }

  lemma PassedFits(ps: seq<Protocol>, item: Item)
    requires ps != [] && Fits(ps, item)
    ensures Fits(ps[1..], Passed(ps, item))
  {
    hide Judge, KeptOf, Unnoticed;
    if item.stage == 0 {
      forall j | 0 <= j < |ps| - 1 ensures Unnoticed(ps[1..][j], Passed(ps, item).bytes) {
        KeptIsJunk(ps[0], ps[1..][j], item.bytes);
        PreambleFree(ps[1..][j], KeptOf(ps[0], item.bytes));
      }
    } else {
      forall j | 0 <= j < |ps| - 1 && j < item.stage - 1 ensures Unnoticed(ps[1..][j], item.bytes) {
        assert ps[1..][j] == ps[j + 1];
      }
    }
  }

  lemma {:induction false} PassedAllFit(ps: seq<Protocol>, items: seq<Item>)
    requires ps != [] && forall item :: item in items ==> Fits(ps, item)
    ensures forall item :: item in PassedAll(ps, items) ==> Fits(ps[1..], item)
  {
    hide Fits, Passed;
    if items != [] {
      PassedFits(ps, items[0]);
      PassedAllFit(ps, items[1..]);
    }
  }

  lemma {:induction false} PassedFrames(ps: seq<Protocol>, items: seq<Item>, stage: nat)
    requires 0 < stage < |ps|
    ensures FramesFor(PassedAll(ps, items), stage - 1) == FramesFor(items, stage)
  {
    hide KeptOf;
    if items != [] {
      PassedFrames(ps, items[1..], stage);
      assert PassedAll(ps, items)[1..] == PassedAll(ps, items[1..]);
    }
  }

  lemma {:induction false} PassedFailures(ps: seq<Protocol>, items: seq<Item>, stage: nat)
    requires 0 < stage < |ps| && forall item :: item in items ==> Fits(ps, item)
    ensures FailuresAt(ps[stage], PassedAll(ps, items), stage - 1) == FailuresAt(ps[stage], items, stage)
  {
    hide Parse, KeptOf, Judge, Unnoticed;
    if items != [] {
      assert items[0] in items;
      if items[0].stage == 0 && |ps| - 1 > stage - 1 {
        KeptIsJunk(ps[0], ps[stage], items[0].bytes);
        PreambleFree(ps[stage], KeptOf(ps[0], items[0].bytes));
      }
      PassedFailures(ps, items[1..], stage);
      assert PassedAll(ps, items)[1..] == PassedAll(ps, items[1..]);
    }
  }

  lemma {:induction false} PassedLeftOver(ps: seq<Protocol>, items: seq<Item>)
    requires ps != []
    ensures LeftOver(ps[1..], PassedAll(ps, items)) == LeftOver(ps, items)
  {
    hide KeptOf;
    if items != [] {
      PassedLeftOver(ps, items[1..]);
      assert PassedAll(ps, items)[1..] == PassedAll(ps, items[1..]);
    }
  }

  lemma {:induction false} NothingPasses(items: seq<Item>)
    ensures LeftOver([], items) == Spelled(items)
  {
    if items != [] {
      NothingPasses(items[1..]);
    }
  }

  /** What one stage makes of one item, whatever follows. */
  lemma ItemParse(ps: seq<Protocol>, item: Item, later: seq<byte>)
    requires ps != [] && Fits(ps, item)
    ensures var o, q := Parse(ps[0], item.bytes + later), Parse(ps[0], later);
            && FramesOf(o.events) == (if item.stage == 0 then [item.bytes] else []) + FramesOf(q.events)
            && RestOf(o.events) == Passed(ps, item).bytes + RestOf(q.events)
            && o.held == q.held
            && o.bad == (if item.stage > 0 then Parse(ps[0], item.bytes).bad else 0) + q.bad
  {
    hide Judge, Parse, AsRest, FramesOf, RestOf, Unnoticed;
    var p, q := ps[0], Parse(ps[0], later);
    if item.stage == 0 {
      var piece := Piece([], item.bytes);
      assert [] + (item.bytes + later) == item.bytes + later;
      ParsePiece(p, piece, later);
      PieceFrames(p, piece, q.events);
      PieceRest(p, piece, q.events);
    } else {
      UnnoticedParse(p, item.bytes, later);
      assert [] + FramesOf(q.events) == FramesOf(q.events);
    }
  }

  /** One stage takes its frames and passes on the others, with nothing held. */
  lemma {:induction false} StageParse(ps: seq<Protocol>, items: seq<Item>)
    requires ps != [] && forall item :: item in items ==> Fits(ps, item)
    ensures var o := Parse(ps[0], Spelled(items));
            && FramesOf(o.events) == FramesFor(items, 0)
            && RestOf(o.events) == Spelled(PassedAll(ps, items))
            && o.held == [] && o.bad == FailuresAt(ps[0], items, 0)
  {
    hide Fits, Passed, Parse, FramesOf, RestOf;
    if items == [] {
      NothingSpelt();
      ParseNothing(ps[0]);
    } else {
      ItemParse(ps, items[0], Spelled(items[1..]));
      StageParse(ps, items[1..]);
      assert PassedAll(ps, items)[1..] == PassedAll(ps, items[1..]);
    }
  }

  /**
   The round trip of a chain: frames of several protocols with junk between them, each let through by the
   stages before its own, come out each at its own stage and in order, and the last `rest` gets what is left.
   */
  lemma {:induction false} MixedRoundTrip(ps: seq<Protocol>, items: seq<Item>)
    requires forall item :: item in items ==> Fits(ps, item)
    ensures var os := ChainParse(ps, Spelled(items));
            && (forall k :: 0 <= k < |ps| ==>
                  && FramesOf(os[k].events) == FramesFor(items, k) && os[k].held == []
                  && os[k].bad == FailuresAt(ps[k], items, k))
            && FinalRest(os, Spelled(items)) == LeftOver(ps, items)
  {
    hide Fits, Parse, Passed, FramesOf, RestOf, FinalRest, LeftOver, FramesFor, FailuresAt, Spelled;
    var s := Spelled(items);
    if ps == [] {
      NothingPasses(items);
      NoStage(s);
    } else {
      var o := Parse(ps[0], s);
      var later := ChainParse(ps[1..], RestOf(o.events));
      assert ChainParse(ps, s) == [o] + later;
      StageParse(ps, items);
      PassedAllFit(ps, items);
      PassedLeftOver(ps, items);
      FinalRestLater(o, later, s);
      MixedRoundTrip(ps[1..], PassedAll(ps, items));
      forall k | 0 < k < |ps|
        ensures FramesOf(later[k - 1].events) == FramesFor(items, k) && later[k - 1].held == []
        ensures later[k - 1].bad == FailuresAt(ps[k], items, k)
      {
        PassedFrames(ps, items, k);
        PassedFailures(ps, items, k);
        assert ps[1..][k - 1] == ps[k];
      }
    }
  }

  lemma NoStage(s: seq<byte>)
    ensures ChainParse([], s) == [] && FinalRest([], s) == s
  {
  }
}
