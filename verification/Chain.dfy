/** The specification of filters linked through `rest`: each parses what the one before it let through. */
module Chain {
  import opened Bytes
  import opened Protocols
  import opened Parser
  import opened ParserLaws

  /** The outcome of every stage on an input. */
  function ChainParse(ps: seq<Protocol>, s: seq<byte>): (os: seq<Outcome>)
    ensures |os| == |ps|
  {
    if ps == [] then []
    else
      var o := Parse(ps[0], s);
      [o] + ChainParse(ps[1..], RestOf(o.events))
  }

  lemma ChainOfThree(p: Protocol, q: Protocol, r: Protocol, s: seq<byte>)
    ensures var first := Parse(p, s);
            var second := Parse(q, RestOf(first.events));
            var third := Parse(r, RestOf(second.events));
            ChainParse([p, q, r], s) == [first, second, third]
  {
    hide Parse, RestOf;
    assert [p, q, r][1..] == [q, r] && [q, r][1..] == [r] && [r][1..] == [];
    var second := RestOf(Parse(p, s).events);
    var third := RestOf(Parse(q, second).events);
    assert ChainParse([r], third) == [Parse(r, third)];
    assert ChainParse([q, r], second) == [Parse(q, second), Parse(r, third)];
  }

  /** What leaves the last stage through `rest`. */
  function FinalRest(os: seq<Outcome>, s: seq<byte>): seq<byte> {
    if os == [] then s else RestOf(os[|os| - 1].events)
  }

  /** Bytes that a chain has sent to the `next` endpoints or still holds. */
  function Taken(os: seq<Outcome>): nat {
    if os == [] then 0
    else |Flatten(FramesOf(os[0].events))| + |os[0].held| + Taken(os[1..])
  }

  /** Bytes that sentences put out twice, over all stages. */
  function RepeatsIn(ps: seq<Protocol>, os: seq<Outcome>): nat
    requires |ps| == |os|
  {
    if ps == [] then 0 else Repeats(ps[0], os[0]) + RepeatsIn(ps[1..], os[1..])
  }

  /** Bytes out of all stages plus bytes held in all stages are the bytes in, and the repeated LFs. */
  lemma {:induction false} ChainConservation(ps: seq<Protocol>, s: seq<byte>)
    ensures var os := ChainParse(ps, s);
            Taken(os) + |FinalRest(os, s)| == |s| + RepeatsIn(ps, os)
  {
    hide Parse, Repeats;
    if ps != [] {
      var o := Parse(ps[0], s);
      var rest := RestOf(o.events);
      ChainConservation(ps[1..], rest);
      LengthLaw(ps[0], s);
      RestAndFrames(o.events);
      var os := ChainParse(ps, s);
      assert os[1..] == ChainParse(ps[1..], rest);
      FinalRestLater(o, os[1..], s);
    }
  }

  lemma FinalRestLater(o: Outcome, later: seq<Outcome>, s: seq<byte>)
    ensures FinalRest([o] + later, s) == FinalRest(later, RestOf(o.events))
  {
  }

  /** Every stage puts out valid frames only. */
  lemma {:induction false} OnlyValidInChain(ps: seq<Protocol>, s: seq<byte>)
    ensures var os := ChainParse(ps, s);
            forall k, f :: 0 <= k < |ps| && f in FramesOf(os[k].events) ==> ValidFrame(ps[k], f)
  {
    hide Parse, FramesOf, RestOf, ValidFrame;
    if ps != [] {
      var o := Parse(ps[0], s);
      var later := ChainParse(ps[1..], RestOf(o.events));
      OnlyValidFrames(ps[0], s);
      OnlyValidInChain(ps[1..], RestOf(o.events));
      assert ChainParse(ps, s) == [o] + later;
      forall k, f | 0 < k < |ps| && f in FramesOf(later[k - 1].events) ensures ValidFrame(ps[k], f) {
        assert ps[1..][k - 1] == ps[k];
      }
    }
  }

  /** Without NMEA nothing is repeated. */
  lemma {:induction false} NoRepeats(ps: seq<Protocol>, s: seq<byte>)
    requires forall p :: p in ps ==> p.Keep() == 0
    ensures RepeatsIn(ps, ChainParse(ps, s)) == 0
  {
    hide Parse;
    if ps != [] {
      var o := Parse(ps[0], s);
      assert ps[0] in ps;
      assert ChainParse(ps, s)[1..] == ChainParse(ps[1..], RestOf(o.events));
      NoRepeats(ps[1..], RestOf(o.events));
    }
  }
}
