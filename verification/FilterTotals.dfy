/** What the counters of a filter stand for. */
module FilterTotals {
  import opened Bytes
  import opened Parser
  import opened ParserLaws

  /** How many bytes went to next, how many frames, and how many bytes went to rest. */
  function Totals(events: seq<Event>): (nat, nat, nat) {
    (|Flatten(FramesOf(events))|, |FramesOf(events)|, |RestOf(events)|)
  }

  lemma TotalsNone()
    ensures Totals([]) == (0, 0, 0)
  {
    NothingSpelt();
  }

  lemma TotalsNext(events: seq<Event>, f: seq<byte>)
    ensures Totals(events + [ToNext(f)]) == (Totals(events).0 + |f|, Totals(events).1 + 1, Totals(events).2)
  {
    hide FramesOf, RestOf, Flatten;
    FramesConcat(events, [ToNext(f)]);
    RestConcat(events, [ToNext(f)]);
    assert [ToNext(f)] + [] == [ToNext(f)];
    Front(ToNext(f), []);
    NothingSpelt();
    assert FramesIn(ToNext(f)) + [] == [f] && RestIn(ToNext(f)) + [] == [];
    FlattenOneMore(FramesOf(events), f);
  }

  lemma TotalsRest(events: seq<Event>, s: seq<byte>)
    ensures Totals(events + AsRest(s)) == (Totals(events).0, Totals(events).1, Totals(events).2 + |s|)
  {
    hide FramesOf, RestOf, Flatten, AsRest;
    FramesConcat(events, AsRest(s));
    RestConcat(events, AsRest(s));
    AsRestReads(s);
    assert FramesOf(events) + [] == FramesOf(events);
  }

  /** One more frame, seen from event `since` on. */
  lemma FrameSince(events: seq<Event>, since: nat, f: seq<byte>)
    requires since <= |events|
    ensures FramesOf((events + [ToNext(f)])[since..]) == FramesOf(events[since..]) + [f]
    ensures RestOf((events + [ToNext(f)])[since..]) == RestOf(events[since..])
  {
    hide FramesOf, RestOf;
    assert (events + [ToNext(f)])[since..] == events[since..] + [ToNext(f)];
    FramesConcat(events[since..], [ToNext(f)]);
    RestConcat(events[since..], [ToNext(f)]);
    assert [ToNext(f)] + [] == [ToNext(f)];
    Front(ToNext(f), []);
    NothingSpelt();
  }

  /** More bytes to rest, seen from event `since` on. */
  lemma RestSince(events: seq<Event>, since: nat, s: seq<byte>)
    requires since <= |events|
    ensures FramesOf((events + AsRest(s))[since..]) == FramesOf(events[since..])
    ensures RestOf((events + AsRest(s))[since..]) == RestOf(events[since..]) + s
  {
    hide FramesOf, RestOf, AsRest;
    assert (events + AsRest(s))[since..] == events[since..] + AsRest(s);
    FramesConcat(events[since..], AsRest(s));
    RestConcat(events[since..], AsRest(s));
    AsRestReads(s);
  }

  lemma FlattenOneMore<T>(chunks: seq<seq<T>>, chunk: seq<T>)
    ensures Flatten(chunks + [chunk]) == Flatten(chunks) + chunk
  {
    assert (chunks + [chunk])[..|chunks|] == chunks;
  }
}
