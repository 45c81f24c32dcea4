/** What the MAVLink message filter lets through: the system rule and the per-message rate limit. */
module RateLimits {
  import opened Bytes

  datatype SysKind = Sysid | Compid | SysidCompid

  /** `sys`, `allow_sys` and `type`; an empty set of ids switches the rule off. */
  datatype SysRule = SysRule(ids: set<int>, allow: bool, kind: SysKind)

  /**
   A message and what the filter takes from outside: the clock reading, and whether `msg.find` differs from the
   end of the other set. The program compares iterators of two sets, and C++ does not say how that comes out.
   */
  datatype Message = Message(sysid: byte, compid: byte, msgid: byte, time: int, found: bool)

  /**
   The system rule, the ids of the message rule, the shortest gap per message id, and when each id was last
   sent (all times in nanoseconds).
   */
  datatype Limits = Limits(rule: SysRule, msgs: set<int>, silence: map<int, int>, last: map<int, int>)

  function SysValue(kind: SysKind, sysid: byte, compid: byte): int {
    match kind
    case Sysid => Val(sysid)
    case Compid => Val(compid)
    case SysidCompid => Val(sysid) + 256 * Val(compid)
  }

  /** An allow list passes what it names, a deny list what it does not. */
  predicate SysPasses(rule: SysRule, sysid: byte, compid: byte) {
    rule.ids == {} || (SysValue(rule.kind, sysid, compid) in rule.ids) == rule.allow
  }

  /** A message id that was never sent counts as sent at the clock's epoch. */
  function LastSend(last: map<int, int>, id: int): int {
    if id in last then last[id] else 0
  }

  predicate RatePasses(l: Limits, id: int, time: int) {
    id in l.silence ==> time - LastSend(l.last, id) >= l.silence[id]
  }

  /** `allow_msg` is never set, so with any message id configured a message passes when it is not found. */
  predicate MsgPasses(l: Limits, found: bool) {
    l.msgs == {} || !found
  }

  predicate Passes(l: Limits, m: Message) {
    SysPasses(l.rule, m.sysid, m.compid) && MsgPasses(l, m.found) && RatePasses(l, Val(m.msgid), m.time)
  }

  /** The counter of a refused message. */
  function Refusal(l: Limits, m: Message): (counter: Option<string>)
    ensures counter == None <==> Passes(l, m)
    ensures counter == Some("sysfilter") <==> !SysPasses(l.rule, m.sysid, m.compid)
    ensures counter == Some("msgfilter") ==> l.msgs != {} && m.found
    ensures counter == Some("freqfilter") ==> SysPasses(l.rule, m.sysid, m.compid) && (l.msgs == {} || !m.found)
    ensures counter.Some? ==> counter.value in REFUSALS
  {
    if !SysPasses(l.rule, m.sysid, m.compid) then Some("sysfilter")
    else if !MsgPasses(l, m.found) then Some("msgfilter")
    else if !RatePasses(l, Val(m.msgid), m.time) then Some("freqfilter")
    else None
  }

  const REFUSALS := {"sysfilter", "msgfilter", "freqfilter"}

  /** Looking up a missing time stores the epoch for it; sending stores the current time. */
  function Next(l: Limits, m: Message): Limits {
    var id := Val(m.msgid);
    if !SysPasses(l.rule, m.sysid, m.compid) || !MsgPasses(l, m.found) || id !in l.silence then l
    else l.(last := l.last[id := if RatePasses(l, id, m.time) then m.time else LastSend(l.last, id)])
  }

  /** What the filter remembers after a run over any messages. */
  function LimitsAfter(l: Limits, ms: seq<Message>): Limits {
    if ms == [] then l else Next(LimitsAfter(l, ms[..|ms| - 1]), ms[|ms| - 1])
  }

  /** When the messages with one id were forwarded in a run. */
  function Sent(l: Limits, ms: seq<Message>, id: int): seq<int> {
    if ms == [] then []
    else
      var init, m := ms[..|ms| - 1], ms[|ms| - 1];
      Sent(l, init, id) + if Passes(LimitsAfter(l, init), m) && Val(m.msgid) == id then [m.time] else []
  }

  // ---------- the system rule ----------

  /** An empty rule lets everything through. */
  lemma NoRule(rule: SysRule, sysid: byte, compid: byte)
    requires rule.ids == {}
    ensures SysPasses(rule, sysid, compid)
  {
  }

  /** A list of system ids: an allow list lets exactly those through, a deny list exactly the others. */
  lemma SystemList(ids: set<int>, allow: bool, sysid: byte, compid: byte)
    requires ids != {}
    ensures SysPasses(SysRule(ids, allow, Sysid), sysid, compid) <==> (allow <==> Val(sysid) in ids)
  {
  }

  /** The same for component ids, whatever the system. */
  lemma ComponentList(ids: set<int>, allow: bool, sysid: byte, compid: byte)
    requires ids != {}
    ensures SysPasses(SysRule(ids, allow, Compid), sysid, compid) <==> (allow <==> Val(compid) in ids)
  {
  }

  /** The numbers of a list of pairs, the component in the upper byte. */
  function PairIds(pairs: set<(byte, byte)>): set<int> {
    set pair | pair in pairs :: Val(pair.0) + 256 * Val(pair.1)
  }

  lemma InPairs(pairs: set<(byte, byte)>, a: byte, b: byte)
    ensures Val(a) + 256 * Val(b) in PairIds(pairs) <==> (a, b) in pairs
  {
    hide Val;
    var number := Val(a) + 256 * Val(b);
    if number in PairIds(pairs) {
      var pair :| pair in pairs && Val(pair.0) + 256 * Val(pair.1) == number;
      SamePair(pair.0, pair.1, a, b);
    }
  }

  /** A list of pairs of system and component names exactly those pairs. */
  lemma PairList(pairs: set<(byte, byte)>, allow: bool, sysid: byte, compid: byte)
    requires pairs != {}
    ensures SysPasses(SysRule(PairIds(pairs), allow, SysidCompid), sysid, compid)
       <==> (allow <==> (sysid, compid) in pairs)
  {
    hide Val, PairIds;
    var some :| some in pairs;
    InPairs(pairs, some.0, some.1);
    InPairs(pairs, sysid, compid);
  }

  lemma SamePair(a: byte, b: byte, c: byte, d: byte)
    requires Val(a) + 256 * Val(b) == Val(c) + 256 * Val(d)
    ensures a == c && b == d
  {
    hide Val;
    SameVal(a, c);
    SameVal(b, d);
  }

  lemma SameVal(a: byte, b: byte)
    ensures Val(a) == Val(b) ==> a == b
  {
  }

  // ---------- what is forwarded ----------

  /** The time a message with this id has to keep its distance from: the last one sent, or the stored one. */
  function LastBefore(l: Limits, ms: seq<Message>, id: int): int {
    var ts := Sent(l, ms, id);
    if ts != [] then ts[|ts| - 1] else if id in l.last then l.last[id] else 0
  }

  /**
   A message is forwarded exactly when the two rules let it through and it comes late enough: with no period
   for its id, or at least the period after the last one sent. What is due is never held back.
   */
  lemma ForwardedWhenDue(l: Limits, ms: seq<Message>, m: Message)
    ensures var id := Val(m.msgid);
            var due := id !in l.silence || m.time - LastBefore(l, ms, id) >= l.silence[id];
            Sent(l, ms + [m], id) == Sent(l, ms, id)
              + if SysPasses(l.rule, m.sysid, m.compid) && (l.msgs == {} || !m.found) && due then [m.time] else []
  {
    hide SysPasses, Val, LimitsAfter;
    var id, after := Val(m.msgid), LimitsAfter(l, ms);
    assert (ms + [m])[..|ms|] == ms;
    LimitsAfterKeeps(l, ms);
    if id in l.silence {
      Spacing(l, ms, id);
    }
  }

  /** With no rules and no period for its id every message is forwarded. */
  lemma AlwaysForwarded(l: Limits, ms: seq<Message>, m: Message)
    requires l.rule.ids == {} && l.msgs == {} && Val(m.msgid) !in l.silence
    ensures Sent(l, ms + [m], Val(m.msgid)) == Sent(l, ms, Val(m.msgid)) + [m.time]
  {
    hide Val, Sent;
    ForwardedWhenDue(l, ms, m);
    NoRule(l.rule, m.sysid, m.compid);
  }

  // ---------- `freq_filter` ----------

  /** C++ division: truncation toward zero. */
  function TruncDiv(a: int, b: int): int
    requires a >= 0 && b != 0
  {
    if b > 0 then a / b else -(a / -b)
  }

  /** The quotient of the division that leaves a remainder with the sign of the dividend. */
  lemma TruncDivIs(a: int, b: int)
    requires a >= 0 && b != 0
    ensures 0 <= a - TruncDiv(a, b) * b < (if b < 0 then -b else b)
  {
    if b < 0 {
      NegTimes(a / -b, -b);
    }
  }

  lemma NegTimes(q: int, b: int)
    ensures (-q) * (-b) == q * b
  {
  }

  function Periods(maxFreq: map<int, int>): map<int, int>
    requires forall id :: id in maxFreq ==> maxFreq[id] != 0
  {
    map id | id in maxFreq :: TruncDiv(1000000000, maxFreq[id])
  }

  /** Every configured frequency, positive or not, gives 10^9 divided by it, the remainder left out. */
  lemma PeriodIs(maxFreq: map<int, int>, id: int)
    requires (forall i :: i in maxFreq ==> maxFreq[i] != 0) && id in maxFreq
    ensures var f := maxFreq[id];
            id in Periods(maxFreq) && 0 <= 1000000000 - Periods(maxFreq)[id] * f < (if f < 0 then -f else f)
  {
    hide TruncDiv;
    TruncDivIs(1000000000, maxFreq[id]);
  }

  // ---------- the limit over whole runs ----------

  /** Consecutive times are at least `gap` apart. */
  predicate Spaced(ts: seq<int>, gap: int) {
    forall i :: 0 <= i < |ts| - 1 ==> ts[i + 1] - ts[i] >= gap
  }

  /** A run changes nothing but the times. */
  lemma {:induction false} LimitsAfterKeeps(l: Limits, ms: seq<Message>)
    ensures LimitsAfter(l, ms) == l.(last := LimitsAfter(l, ms).last)
  {
    hide SysPasses, RatePasses, MsgPasses, Val;
    if ms != [] {
      LimitsAfterKeeps(l, ms[..|ms| - 1]);
    }
  }

  lemma SpacedMore(ts: seq<int>, t: int, gap: int)
    requires Spaced(ts, gap) && (ts != [] ==> t - ts[|ts| - 1] >= gap)
    ensures Spaced(ts + [t], gap)
  {
  }

  lemma SpacedNone(gap: int)
    ensures Spaced([], gap)
  {
  }

  /** A forwarded message is the last one sent with its id; any other leaves the times as they read. */
  lemma NextSend(l: Limits, m: Message, id: int)
    requires id in l.silence
    ensures var sent := Passes(l, m) && Val(m.msgid) == id;
            && (sent ==> m.time - LastSend(l.last, id) >= l.silence[id])
            && LastSend(Next(l, m).last, id) == if sent then m.time else LastSend(l.last, id)
  {
    hide SysPasses, MsgPasses, Val;
  }

  /** Whatever the clock does, forwarded messages with one id are at least its period apart. */
  lemma {:induction false} Spacing(l: Limits, ms: seq<Message>, id: int)
    requires id in l.silence
    ensures Spaced(Sent(l, ms, id), l.silence[id])
    ensures Sent(l, ms, id) != [] ==> Sent(l, ms, id)[0] - LastSend(l.last, id) >= l.silence[id]
    ensures var ts := Sent(l, ms, id);
            LastSend(LimitsAfter(l, ms).last, id) == if ts == [] then LastSend(l.last, id) else ts[|ts| - 1]
  {
    hide Passes, Next, Val, Spaced, LastSend;
    if ms == [] {
      SpacedNone(l.silence[id]);
    } else {
      var init, m := ms[..|ms| - 1], ms[|ms| - 1];
      LimitsAfterKeeps(l, init);
      Spacing(l, init, id);
      NextSend(LimitsAfter(l, init), m, id);
      if Passes(LimitsAfter(l, init), m) && Val(m.msgid) == id {
        SpacedMore(Sent(l, init, id), m.time, l.silence[id]);
      } else {
        assert Sent(l, init, id) + [] == Sent(l, init, id);
      }
    }
  }

  lemma {:induction false} FarApart(ts: seq<int>, gap: nat, i: nat, j: nat)
    requires Spaced(ts, gap) && i <= j < |ts|
    ensures ts[j] - ts[i] >= (j - i) * gap
    decreases j - i
  {
    if i < j {
      FarApart(ts, gap, i, j - 1);
      assert ts[j - 1 + 1] - ts[j - 1] >= gap;
      OneMore(j - 1 - i, gap);
    }
  }

  lemma OneMore(k: int, gap: int)
    ensures (k + 1) * gap == k * gap + gap
  {
  }

  lemma Quotient(k: nat, gap: nat, w: nat)
    requires gap > 0 && k * gap <= w
    ensures k <= w / gap
  {
    OneMore(w / gap, gap);
    assert w < (w / gap) * gap + gap;
    if k > w / gap {
      Monotone(w / gap + 1, k, gap);
    }
  }

  lemma Monotone(a: nat, b: nat, gap: nat)
    requires a <= b
    ensures a * gap <= b * gap
  {
  }

  /** How many of the times fall into a window. */
  function InWindow(ts: seq<int>, from: int, width: nat): nat {
    if ts == [] then 0
    else InWindow(ts[..|ts| - 1], from, width) + if from <= ts[|ts| - 1] <= from + width then 1 else 0
  }

  lemma {:induction false} WindowTail(ts: seq<int>, gap: nat, from: int, width: nat, k: nat)
    requires Spaced(ts, gap) && k <= |ts|
    requires k < |ts| ==> from <= ts[k]
    requires forall i :: 0 <= i < k ==> ts[i] < from
    ensures InWindow(ts, from, width) <= |ts| - k
  {
    if ts != [] {
      var init := ts[..|ts| - 1];
      assert forall i :: 0 <= i < |init| - 1 ==> init[i + 1] - init[i] == ts[i + 1] - ts[i];
      if k < |ts| {
        WindowTail(init, gap, from, width, k);
      } else {
        WindowTail(init, gap, from, width, k - 1);
      }
    }
  }

  /** Any window of length W holds at most W / period + 1 forwarded messages. */
  lemma {:induction false} WindowBound(ts: seq<int>, gap: nat, from: int, width: nat)
    requires gap > 0 && Spaced(ts, gap)
    ensures InWindow(ts, from, width) <= width / gap + 1
  {
    if ts != [] {
      var n := |ts| - 1;
      var init := ts[..n];
      assert forall i :: 0 <= i < |init| - 1 ==> init[i + 1] - init[i] == ts[i + 1] - ts[i];
      if from <= ts[n] <= from + width {
        var k := FirstFrom(ts, gap, from);
        WindowTail(ts, gap, from, width, k);
        FarApart(ts, gap, k, n);
        Quotient(n - k, gap, width);
      } else {
        WindowBound(init, gap, from, width);
      }
    }
  }

  /** Spaced times grow, so those in front of a moment come first. */
  lemma {:induction false} FirstFrom(ts: seq<int>, gap: nat, from: int) returns (k: nat)
    requires Spaced(ts, gap) && ts != [] && from <= ts[|ts| - 1]
    ensures k < |ts| && from <= ts[k]
    ensures forall i :: 0 <= i < k ==> ts[i] < from
  {
    k := 0;
    while ts[k] < from
      invariant k < |ts|
      invariant forall i :: 0 <= i < k ==> ts[i] < from
      decreases |ts| - k
    {
      k := k + 1;
    }
  }

  /** With a configured frequency from 1 to 10^9 the limit holds for every run and every window. */
  lemma RateLimited(maxFreq: map<int, int>, id: int, rule: SysRule, msgs: set<int>, ms: seq<Message>,
                    from: int, width: nat)
    requires forall i :: i in maxFreq ==> maxFreq[i] != 0
    requires id in maxFreq && 1 <= maxFreq[id] <= 1000000000
    ensures var period := 1000000000 / maxFreq[id];
            var sent := Sent(Limits(rule, msgs, Periods(maxFreq), map[]), ms, id);
            period >= 1 && Spaced(sent, period) && InWindow(sent, from, width) <= width / period + 1
  {
    hide Sent;
    var l := Limits(rule, msgs, Periods(maxFreq), map[]);
    var f := maxFreq[id];
    Quotient(1, f, 1000000000);
    assert l.silence[id] == 1000000000 / f;
    Spacing(l, ms, id);
    WindowBound(Sent(l, ms, id), 1000000000 / f, from, width);
  }
}
