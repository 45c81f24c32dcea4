/** The filter for MAVLink messages that a recogniser has found. */
module MavlinkFilters {
  import opened Bytes
  import opened Parser
  import opened ParserLaws
  import opened Filters
  import opened RateLimits

  // ---------- a run of `write` ----------

  /** One call of `write`: the message as it is judged, and the bytes that go on. */
  datatype Call = Call(message: Message, frame: seq<byte>)

  function MessagesOf(calls: seq<Call>): seq<Message> {
    seq(|calls|, i requires 0 <= i < |calls| => calls[i].message)
  }

  /** The calls whose message is forwarded. */
  function Forwarded(l: Limits, calls: seq<Call>): seq<Call> {
    if calls == [] then []
    else
      var init, c := calls[..|calls| - 1], calls[|calls| - 1];
      Forwarded(l, init) + if Passes(LimitsAfter(l, MessagesOf(init)), c.message) then [c] else []
  }

  /** What a run puts out: a message goes whole to next or whole to rest. */
  function Routed(l: Limits, calls: seq<Call>): seq<Event> {
    if calls == [] then []
    else
      var init, c := calls[..|calls| - 1], calls[|calls| - 1];
      Routed(l, init)
      + if Passes(LimitsAfter(l, MessagesOf(init)), c.message) then [ToNext(c.frame)] else AsRest(c.frame)
  }

  function CallFrames(calls: seq<Call>): seq<seq<byte>> {
    seq(|calls|, i requires 0 <= i < |calls| => calls[i].frame)
  }

  /** The times of the calls with one message id, which is the sixth byte of the frame. */
  function TimesOf(calls: seq<Call>, id: int): seq<int> {
    if calls == [] then []
    else
      var c := calls[|calls| - 1];
      TimesOf(calls[..|calls| - 1], id) + if |c.frame| >= 6 && Val(c.frame[5]) == id then [c.message.time] else []
  }

  predicate Genuine(c: Call) {
    && |c.frame| >= 6
    && c.message.sysid == c.frame[3] && c.message.compid == c.frame[4] && c.message.msgid == c.frame[5]
  }

  lemma MessagesInit(calls: seq<Call>)
    requires calls != []
    ensures MessagesOf(calls) != []
    ensures var ms := MessagesOf(calls);
            ms[..|ms| - 1] == MessagesOf(calls[..|calls| - 1]) && ms[|ms| - 1] == calls[|calls| - 1].message
  {
  }

  lemma NoMessages()
    ensures MessagesOf([]) == []
  {
  }

  /** A run grows by one call. */
  lemma OneMoreCall(l: Limits, calls: seq<Call>, c: Call)
    ensures var after := LimitsAfter(l, MessagesOf(calls));
            && LimitsAfter(l, MessagesOf(calls + [c])) == Next(after, c.message)
            && Routed(l, calls + [c])
               == Routed(l, calls) + if Passes(after, c.message) then [ToNext(c.frame)] else AsRest(c.frame)
  {
    hide Next, Passes, AsRest;
    assert (calls + [c])[..|calls|] == calls;
    MessagesInit(calls + [c]);
  }

  /** The frames put out on next are those of the forwarded calls, in order. */
  lemma {:induction false} RoutedFrames(l: Limits, calls: seq<Call>)
    ensures FramesOf(Routed(l, calls)) == CallFrames(Forwarded(l, calls))
  {
    hide FramesOf, AsRest, Passes, LimitsAfter;
    NothingSpelt();
    if calls != [] {
      var init, c := calls[..|calls| - 1], calls[|calls| - 1];
      RoutedFrames(l, init);
      FramesConcat(Routed(l, init), [ToNext(c.frame)]);
      FramesConcat(Routed(l, init), AsRest(c.frame));
      AsRestReads(c.frame);
      Front(ToNext(c.frame), []);
      assert [ToNext(c.frame)] + [] == [ToNext(c.frame)] && [c.frame] + [] == [c.frame];
    }
  }

  lemma TimesMore(calls: seq<Call>, c: Call, id: int)
    ensures TimesOf(calls + [c], id)
         == TimesOf(calls, id) + if |c.frame| >= 6 && Val(c.frame[5]) == id then [c.message.time] else []
  {
    assert (calls + [c])[..|calls|] == calls;
  }

  /** Their times, for one id, are those of the run that the rate limit is about. */
  lemma {:induction false} ForwardedTimes(l: Limits, calls: seq<Call>, id: int)
    requires forall c :: c in calls ==> Genuine(c)
    ensures TimesOf(Forwarded(l, calls), id) == Sent(l, MessagesOf(calls), id)
  {
    hide Passes, LimitsAfter, Val, MessagesOf;
    if calls == [] {
      NoMessages();
    } else {
      var init, c := calls[..|calls| - 1], calls[|calls| - 1];
      MessagesInit(calls);
      ForwardedTimes(l, init, id);
      assert Genuine(c);
      if Passes(LimitsAfter(l, MessagesOf(init)), c.message) {
        TimesMore(Forwarded(l, init), c, id);
      } else {
        assert Forwarded(l, init) + [] == Forwarded(l, init);
        assert Sent(l, MessagesOf(init), id) + [] == Sent(l, MessagesOf(init), id);
      }
    }
  }

  // ---------- the filter ----------

  class MavlinkV1Filter {
    const base: FilterBase
    var rule: SysRule
    var msgs: set<int>
    var silencePeriod: map<int, int>
    var lastSendTime: map<int, int>
    /** The calls of `write` since the last configuration, and the state and the events at that time. */
    ghost var calls: seq<Call>
    ghost var start: RateLimits.Limits
    ghost var since: nat

    ghost predicate Ready()
      reads this, base, base.Repr
      ensures Ready() ==> base.cnt in base.Repr
    {
      base.Valid() && this !in base.Repr
    }

    /** What the filter remembers and has put out is what its calls make of the state at the start. */
    ghost predicate Valid()
      reads this, base, base.Repr
    {
      && Ready() && (forall c :: c in calls ==> Genuine(c))
      && Limits() == LimitsAfter(start, MessagesOf(calls))
      && since <= |base.events| && base.events[since..] == Routed(start, calls)
    }

    ghost function Limits(): RateLimits.Limits
      reads this
    {
      RateLimits.Limits.Limits(rule, msgs, silencePeriod, lastSendTime)
    }

    /** A run starts here. */
    ghost predicate Starting()
      reads this, base`events
    {
      calls == [] && start == Limits() && since == |base.events|
    }

    constructor ()
      ensures Valid() && Starting() && fresh(base) && fresh(base.Repr)
      ensures rule.ids == {} && msgs == {} && silencePeriod == map[] && lastSendTime == map[]
    {
      base := new FilterBase();
      rule, msgs := SysRule({}, false, Sysid), {};
      silencePeriod, lastSendTime := map[], map[];
      new;
      Start();
    }

    ghost method Start()
      requires Ready()
      modifies this`calls, this`start, this`since
      ensures Valid() && Starting()
    {
      calls, start, since := [], Limits(), |base.events|;
      NoMessages();
    }

    static method SetOf(ids: seq<int>) returns (s: set<int>)
      ensures s == set id | id in ids
    {
      s := {};
      for i := 0 to |ids|
        invariant s == set id | id in ids[..i]
      {
        s := s + {ids[i]};
      }
      assert ids[..|ids|] == ids;
    }

    /** `sys_filter`. */
    method SetSysRule(allow: bool, kind: SysKind, ids: seq<int>)
      requires Ready()
      modifies this`rule, this`calls, this`start, this`since
      ensures Valid() && Starting()
      ensures rule == SysRule((set id | id in ids), allow, kind)
    {
      var sys := SetOf(ids);
      rule := SysRule(sys, allow, kind);
      Start();
    }

    /** `msg_filter`; its `allow` lands in the system rule. */
    method SetMsgRule(allow: bool, ids: seq<int>)
      requires Ready()
      modifies this`rule, this`msgs, this`calls, this`start, this`since
      ensures Valid() && Starting()
      ensures msgs == (set id | id in ids) && rule == old(rule).(allow := allow)
    {
      rule := rule.(allow := allow);
      msgs := SetOf(ids);
      Start();
    }

    /** `freq_filter`: a period for every id with a configured frequency. */
    method SetFrequencies(maxFreq: map<int, int>)
      requires Ready() && forall id :: id in maxFreq ==> maxFreq[id] != 0
      modifies this`silencePeriod, this`calls, this`start, this`since
      ensures Valid() && Starting()
      ensures silencePeriod == old(silencePeriod) + Periods(maxFreq)
    {
      hide FilterBase.Valid, FilterBase.Linked;
      var todo: set<int> := maxFreq.Keys;
      while exists id :: id in todo
        invariant todo <= maxFreq.Keys && Ready()
        invariant silencePeriod == old(silencePeriod) + Periods(maxFreq - todo)
        decreases todo
      {
        var id :| id in todo;
        todo := todo - {id};
        silencePeriod := silencePeriod[id := TruncDiv(1000000000, maxFreq[id])];
      }
      assert maxFreq - todo == maxFreq;
      Start();
    }

    /** Exactly the counter of this refusal has grown, by one. */
    twostate predicate Refused(refusal: Option<string>)
      reads this, base, base.cnt
    {
      forall name :: name in REFUSALS ==>
        base.cnt.Value(name) == old(base.cnt.Value(name)) + if refusal == Some(name) then 1 else 0
    }

    /** No period for this message id, or the period has passed since it was last sent, or since the epoch. */
    ghost predicate Due(id: int, now: int)
      reads this
    {
      id in silencePeriod ==>
        now - (if id in lastSendTime then lastSendTime[id] else 0) >= silencePeriod[id]
    }

    /** `passed`, with the clock reading and the iterator comparison it would make. */
    method Passed(sysid: byte, compid: byte, msgid: byte, now: int, found: bool) returns (ok: bool)
      requires Ready()
      modifies this`lastSendTime, base.cnt
      ensures Ready() && base.Kept() && base.events == old(base.events)
      ensures ok == Passes(old(Limits()), Message(sysid, compid, msgid, now, found))
      ensures ok <==> SysPasses(rule, sysid, compid) && (msgs == {} || !found) && old(Due(Val(msgid), now))
      ensures Limits() == Next(old(Limits()), Message(sysid, compid, msgid, now, found))
      ensures base.OnlyCounted(REFUSALS) && Refused(Refusal(old(Limits()), Message(sysid, compid, msgid, now, found)))
    {
      hide FilterBase.Valid, FilterBase.Linked, Val;
      if rule.ids != {} {
        var named := SysValue(rule.kind, sysid, compid) in rule.ids;
        if rule.allow != named {
          base.CountOther("sysfilter");
          return false;
        }
      }
      if msgs != {} && found {
        base.CountOther("msgfilter");
        return false;
      }
      var id := Val(msgid);
      if id in silencePeriod {
        lastSendTime := lastSendTime[id := LastSend(lastSendTime, id)];
        if now - lastSendTime[id] < silencePeriod[id] {
          base.CountOther("freqfilter");
          return false;
        }
        lastSendTime := lastSendTime[id := now];
      }
      ok := true;
    }

    method Send(buf: array<byte>, off: nat, len: nat, ok: bool)
      requires Ready() && buf !in base.Repr && off + len <= buf.Length
      modifies base.Repr
      ensures Ready() && base.Kept()
      ensures base.OnlyCounted({"next", "pack", "rest"})
      ensures base.events == old(base.events)
                             + if ok then [ToNext(buf[off..off + len])] else AsRest(buf[off..off + len])
    {
      hide FilterBase.Valid, FilterBase.Linked, AsRest;
      if ok {
        base.WriteNext(buf, off, len);
      } else {
        base.WriteRest(buf, off, len);
      }
    }

    /** `write`, for a whole frame as the recogniser sends it. */
    method Write(buf: array<byte>, off: nat, len: nat, now: int, found: bool)
      requires Valid() && buf !in base.Repr && 6 <= len && off + len <= buf.Length
      modifies this`lastSendTime, this`calls, base.Repr
      ensures Valid() && base.Kept()
      ensures var m := Message(buf[off + 3], buf[off + 4], buf[off + 5], now, found);
              && calls == old(calls) + [Call(m, buf[off..off + len])]
              && Refused(Refusal(old(Limits()), m))
              && Limits() == Next(old(Limits()), m)
              && base.events == old(base.events)
                 + if Passes(old(Limits()), m) then [ToNext(buf[off..off + len])] else AsRest(buf[off..off + len])
      ensures base.events == old(base.events)
              + if SysPasses(rule, buf[off + 3], buf[off + 4]) && (msgs == {} || !found)
                   && old(Due(Val(buf[off + 5]), now))
                then [ToNext(buf[off..off + len])] else AsRest(buf[off..off + len])
    {
      hide FilterBase.Valid, FilterBase.Linked, Passes, Next, AsRest, Routed, LimitsAfter, MessagesOf;
      ghost var c := Call(Message(buf[off + 3], buf[off + 4], buf[off + 5], now, found), buf[off..off + len]);
      ghost var was := base.events;
      OneMoreCall(start, calls, c);
      var ok := Passed(buf[off + 3], buf[off + 4], buf[off + 5], now, found);
      Send(buf, off, len, ok);
      calls := calls + [c];
      assert base.events[since..] == was[since..] + base.events[|was|..];
    }

    /**
     The rate limit of the filter's own run: what it put out on next since the last configuration are the frames
     of the forwarded calls, and the times of those with one id are at least its period apart and at most
     W / period + 1 in any window of length W. A configuration leaves the times of the last messages alone, so the
     first one after it keeps its distance from the last one before.
     */
    lemma RunLimited(id: int, from: int, width: nat)
      requires Valid() && id in start.silence && start.silence[id] > 0
      ensures var period, forwarded := start.silence[id], Forwarded(start, calls);
              var times := TimesOf(forwarded, id);
              && silencePeriod == start.silence
              && FramesOf(base.events[since..]) == CallFrames(forwarded)
              && (base.next != null && base.nextSince == since ==>
                    base.next.writes == base.nextBefore + CallFrames(forwarded))
              && Spaced(times, period) && InWindow(times, from, width) <= width / period + 1
              && (times != [] ==> times[0] - LastSend(start.last, id) >= period)
              && LastSend(lastSendTime, id) == if times == [] then LastSend(start.last, id) else times[|times| - 1]
    {
      hide FramesOf, Forwarded, Routed, Sent, InWindow, Genuine, LimitsAfter, TimesOf, Spaced, LastSend;
      LimitsAfterKeeps(start, MessagesOf(calls));
      RoutedFrames(start, calls);
      ForwardedTimes(start, calls, id);
      Spacing(start, MessagesOf(calls), id);
      WindowBound(Sent(start, MessagesOf(calls), id), start.silence[id], from, width);
    }
  }
}
