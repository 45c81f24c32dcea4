/** What the greedy parser guarantees for NMEA, where every complete sentence repeats its LF. */
module NmeaLaws {
  import opened Bytes
  import opened Protocols
  import opened Parser
  import opened ParserLaws
  import opened NmeaLines

  // ---------- ordered conservation ----------

  /** A byte string without its LFs. */
  function Inked(s: seq<byte>): seq<byte> {
    if s == [] then [] else (if s[0] == LF then [] else [s[0]]) + Inked(s[1..])
  }

  lemma {:induction false} InkedConcat(s: seq<byte>, t: seq<byte>)
    ensures Inked(s + t) == Inked(s) + Inked(t)
  {
    if s == [] {
      assert s + t == t;
    } else {
      var first := if s[0] == LF then [] else [s[0]];
      assert (s + t)[1..] == s[1..] + t;
      InkedConcat(s[1..], t);
      Assoc(first, Inked(s[1..]), Inked(t));
    }
  }

  lemma InkedRepeat(s: seq<byte>, n: nat)
    requires 0 < n <= |s| && s[n - 1] == LF
    ensures Inked(s[n - 1..]) == Inked(s[n..])
  {
  }

  lemma InkedSplit(s: seq<byte>, i: nat)
    requires i <= |s|
    ensures Inked(s) == Inked(s[..i]) + Inked(s[i..])
  {
    hide Inked;
    InkedConcat(s[..i], s[i..]);
    assert s[..i] + s[i..] == s;
  }

  lemma InkedHead(s: seq<byte>)
    requires s != []
    ensures Inked(s) == Inked([s[0]]) + Inked(s[1..])
  {
    hide Inked;
    InkedSplit(s, 1);
    assert s[..1] == [s[0]];
  }

  lemma InkedFrame(s: seq<byte>, n: nat)
    requires 0 < n <= |s| && s[n - 1] == LF
    ensures Inked(s) == Inked(s[..n]) + Inked(s[n - 1..])
  {
    hide Inked;
    InkedSplit(s, n);
    InkedRepeat(s, n);
  }

  lemma InkedReplay(s: seq<byte>, n: nat)
    requires 0 < n <= |s| && s[n - 1] == LF
    ensures Inked(s[1..n] + s[n - 1..]) == Inked(s[1..])
  {
    hide Inked;
    InkedConcat(s[1..n], s[n - 1..]);
    InkedRepeat(s, n);
    InkedConcat(s[1..n], s[n..]);
    assert s[1..n] + s[n..] == s[1..];
  }

  /** Output in emission order, then the held bytes, is the input, up to LFs. */
  lemma {:induction false} NmeaConservation(s: seq<byte>)
    ensures var o := Parse(Nmea0183, s);
            Inked(Spell(o.events) + o.held) == Inked(s)
    decreases Preambles(Nmea0183, s), |s|
  {
    hide Judge, Preambles, Spell, PastFrame, PastBad, After, Inked;
    NothingSpelt();
    assert [] + s == s;
    if s != [] {
      Progress(Nmea0183, s);
      InkedHead(s);
      match Judge(Nmea0183, s)
      case Junk =>
        NmeaConservation(s[1..]);
        InkedFirst(s, s[1..], ToRest(s[0]), 0, Parse(Nmea0183, s[1..]));
      case Wait =>
      case Frame(n) =>
        SentenceParts(s, n);
        NmeaConservation(s[n - 1..]);
        InkedFrame(s, n);
        InkedFirst(s, s[n - 1..], ToNext(s[..n]), 0, Parse(Nmea0183, s[n - 1..]));
      case Bad(n) =>
        SentenceParts(s, n);
        var again := s[1..n] + s[n - 1..];
        NmeaConservation(again);
        InkedReplay(s, n);
        InkedFirst(s, again, ToRest(s[0]), 1, Parse(Nmea0183, again));
    }
  }

  /** The first event and the input that is still to be parsed make up the input, up to LFs. */
  lemma InkedFirst(s: seq<byte>, again: seq<byte>, e: Event, bad: nat, o: Outcome)
    requires Inked(s) == Inked(BytesOf(e)) + Inked(again)
    requires Inked(Spell(o.events) + o.held) == Inked(again)
    ensures var r := After([e], bad, o); Inked(Spell(r.events) + r.held) == Inked(s)
  {
    hide Inked, Spell, BytesOf;
    Front(e, o.events);
    Assoc(BytesOf(e), Spell(o.events), o.held);
    InkedConcat(BytesOf(e), Spell(o.events) + o.held);
  }

  // ---------- when plain conservation holds ----------

  /** A `$`, at most 1021 more bytes up to the next CR, and an LF: a candidate that gets judged. */
  predicate EndedHere(s: seq<byte>) {
    s != [] && s[0] == 0x24 && IndexOf(s, 0x0d) <= 1022 && IndexOf(s, 0x0d) + 1 < |s|
    && s[IndexOf(s, 0x0d) + 1] == 0x0a
  }

  predicate Ended(s: seq<byte>) {
    exists i :: 0 <= i < |s| && EndedHere(s[i..])
  }

  lemma EndedIsJudged(s: seq<byte>)
    requires s != []
    ensures EndedHere(s) <==> Judge(Nmea0183, s).Frame? || Judge(Nmea0183, s).Bad?
  {
    hide Checks, IndexOf;
  }

  lemma EndedLater(s: seq<byte>)
    requires s != [] && !EndedHere(s)
    ensures Ended(s) <==> Ended(s[1..])
  {
    hide EndedHere;
    if Ended(s) {
      var i :| 0 <= i < |s| && EndedHere(s[i..]);
      assert s[0..] == s;
      assert s[i..] == s[1..][i - 1..];
    }
    if Ended(s[1..]) {
      var i :| 0 <= i < |s| - 1 && EndedHere(s[1..][i..]);
      assert s[1..][i..] == s[i + 1..];
    }
  }

  lemma HeadNotWaiting(s: seq<byte>)
    requires IndexOf(s, CR) + 1 < |s|
    ensures Judge(Nmea0183, s) != Wait
  {
    hide Checks, IndexOf;
  }

  lemma EndAfterHead(s: seq<byte>, i: nat)
    requires i < |s| && EndedHere(s[i..])
    ensures IndexOf(s, CR) + 1 < |s|
  {
    hide IndexOf;
    var k := IndexOf(s[i..], CR);
    assert s[i + k] == s[i..][k];
  }

  /** While the head is waited for, no line in the input has ended. */
  lemma WaitingHasNoEnd(s: seq<byte>)
    requires s != [] && Judge(Nmea0183, s) == Wait
    ensures !Ended(s)
  {
    hide Judge, IndexOf, EndedHere;
    if Ended(s) {
      var i :| 0 <= i < |s| && EndedHere(s[i..]);
      EndAfterHead(s, i);
      HeadNotWaiting(s);
    }
  }

  lemma JudgedRepeats(s: seq<byte>)
    requires s != [] && (Judge(Nmea0183, s).Frame? || Judge(Nmea0183, s).Bad?)
    ensures Repeats(Nmea0183, Parse(Nmea0183, s)) > 0
  {
    hide Judge, FramesOf, PastFrame, PastBad;
    Progress(Nmea0183, s);
    match Judge(Nmea0183, s)
    case Frame(n) => Front(ToNext(s[..n]), Parse(Nmea0183, PastFrame(Nmea0183, s, n)).events);
    case Bad(_) =>
  }

  lemma JunkRepeats(s: seq<byte>)
    requires s != [] && Judge(Nmea0183, s) == Junk
    ensures var o, later := Parse(Nmea0183, s), Parse(Nmea0183, s[1..]);
            && Repeats(Nmea0183, o) == Repeats(Nmea0183, later)
            && Spell(o.events) + o.held == [s[0]] + (Spell(later.events) + later.held)
  {
    hide Judge, Parse, FramesOf, Spell;
    JunkHead(Nmea0183, s);
    var later := Parse(Nmea0183, s[1..]);
    Front(ToRest(s[0]), later.events);
    Assoc([s[0]], Spell(later.events), later.held);
    assert [] + FramesOf(later.events) == FramesOf(later.events);
  }

  lemma {:induction false} RepeatsIffEnded(s: seq<byte>)
    ensures Ended(s) <==> Repeats(Nmea0183, Parse(Nmea0183, s)) > 0
    ensures !Ended(s) ==> Spell(Parse(Nmea0183, s).events) + Parse(Nmea0183, s).held == s
    decreases |s|
  {
    hide Judge, Ended, EndedHere, Spell, FramesOf, Repeats, Parse;
    if s == [] {
      NothingLeft();
    } else {
      EndedIsJudged(s);
      match Judge(Nmea0183, s)
      case Junk =>
        EndedLater(s);
        JunkRepeats(s);
        RepeatsIffEnded(s[1..]);
      case Wait =>
        WaitingHasNoEnd(s);
        WaitingRepeats(s);
      case _ =>
        EndsAtHead(s);
        JudgedRepeats(s);
    }
  }

  lemma WaitingRepeats(s: seq<byte>)
    requires s != [] && Judge(Nmea0183, s) == Wait
    ensures var o := Parse(Nmea0183, s); Repeats(Nmea0183, o) == 0 && Spell(o.events) + o.held == s
  {
    hide Judge, Spell, FramesOf;
    NothingSpelt();
    assert [] + s == s;
  }

  lemma NothingLeft()
    ensures !Ended([])
    ensures var o := Parse(Nmea0183, []); Repeats(Nmea0183, o) == 0 && Spell(o.events) + o.held == []
  {
  }

  lemma EndsAtHead(s: seq<byte>)
    requires EndedHere(s)
    ensures Ended(s)
  {
    hide IndexOf;
    assert s[0..] == s;
  }

  /** For NMEA, output in order followed by the held bytes is exactly the input if and only if no line was ended. */
  lemma PlainConservation(s: seq<byte>)
    ensures var o := Parse(Nmea0183, s);
            Spell(o.events) + o.held == s <==> !Ended(s)
  {
    hide Parse, Ended;
    RepeatsIffEnded(s);
    LengthLaw(Nmea0183, s);
  }

  /** An input that is not conserved: a `$` with two more bytes and no checksum on a line of its own. */
  lemma NotConserved()
    ensures var s := [Nmea0183.Preamble(), 'a' as byte, 'b' as byte, CR, LF]; var o := Parse(Nmea0183, s);
            Spell(o.events) + o.held != s
  {
    hide Parse;
    var s := [Nmea0183.Preamble(), 'a' as byte, 'b' as byte, CR, LF];
    IndexOfIs(s, CR, 3);
    EndsAtHead(s);
    PlainConservation(s);
  }

  // ---------- candidates too short for the checksum ----------

  /** A line of a `$`, at most one byte, CR and LF. */
  predicate TooShort(s: seq<byte>) {
    || (|s| >= 3 && s[0] == Nmea0183.Preamble() && s[1] == CR && s[2] == LF)
    || (|s| >= 4 && s[0] == Nmea0183.Preamble() && s[1] != CR && s[2] == CR && s[3] == LF)
  }

  /**
   `valid_checksum` of the program looks five bytes back from the end of the candidate. A candidate with fewer
   bytes, for which that is outside the array, is judged exactly at such a line; the specification lets it fail.
   */
  lemma ShortCandidates(s: seq<byte>)
    requires s != []
    ensures var v := Judge(Nmea0183, s);
            && ((v.Frame? || v.Bad?) && v.n < 5 <==> TooShort(s))
            && (TooShort(s) ==> v.Bad?)
  {
    hide IndexOf;
    if TooShort(s) {
      IndexOfIs(s, CR, if s[1] == CR then 1 else 2);
    }
  }

  // ---------- no sentence is lost ----------

  predicate Sentence(f: seq<byte>) {
    f != [] && Judge(Nmea0183, f) == Frame(|f|)
  }

  /** `x` ends `a`, and is nothing or the beginning of a line that starts with `$`. */
  predicate Begins(x: seq<byte>, a: seq<byte>) {
    && CR !in x && (x != [] ==> x[0] == Nmea0183.Preamble())
    && |x| <= |a| && a[|a| - |x|..] == x
  }

  /** With a complete sentence in the input, the head is never waited for, and is not longer than it. */
  lemma HeadBefore(a: seq<byte>, f: seq<byte>, t: seq<byte>)
    requires Sentence(f)
    ensures a + f + t != [] && Judge(Nmea0183, a + f + t) != Wait
    ensures a == [] ==> Judge(Nmea0183, a + f + t) == Frame(|f|)
    ensures var v := Judge(Nmea0183, a + f + t);
            v.Frame? || v.Bad? ==> v.n <= |a| || (v.n == |a| + |f| && CR !in a)
  {
    hide Judge, IndexOf;
    var s := a + f + t;
    SentenceParts(f, |f|);
    assert s[|a|] == f[0];
    if a == [] {
      assert s == f + t;
      JudgeStable(Nmea0183, f, t);
    }
    IndexOfPrefix(f, t, CR);
    Assoc(a, f, t);
    IndexOfPrefix(a, f + t, CR);
    HeadNotWaiting(s);
    var v := Judge(Nmea0183, s);
    if v.Frame? || v.Bad? {
      SentenceParts(s, v.n);
    }
  }

  /** The input that is still to be parsed after the first event. */
  function Again(s: seq<byte>): seq<byte>
    requires s != []
  {
    Progress(Nmea0183, s);
    match Judge(Nmea0183, s)
    case Junk => s[1..]
    case Wait => s
    case Frame(n) => PastFrame(Nmea0183, s, n)
    case Bad(n) => PastBad(Nmea0183, s, n)
  }

  /** One event later: how far the parse has come, and the frames still to be expected. */
  lemma AgainParses(s: seq<byte>) returns (head: seq<seq<byte>>)
    requires s != [] && Judge(Nmea0183, s) != Wait
    ensures Preambles(Nmea0183, Again(s)) <= Preambles(Nmea0183, s)
    ensures Preambles(Nmea0183, Again(s)) == Preambles(Nmea0183, s) ==> |Again(s)| < |s|
    ensures FramesOf(Parse(Nmea0183, s).events) == head + FramesOf(Parse(Nmea0183, Again(s)).events)
    ensures var v := Judge(Nmea0183, s);
            v.Frame? ==> v.n <= |s| && head == [s[..v.n]] && Again(s) == PastFrame(Nmea0183, s, v.n)
  {
    hide Judge, Preambles, PastFrame, PastBad, FramesOf;
    Progress(Nmea0183, s);
    var events := Parse(Nmea0183, Again(s)).events;
    match Judge(Nmea0183, s)
    case Junk =>
      Front(ToRest(s[0]), events);
      return [];
    case Frame(n) =>
      Front(ToNext(s[..n]), events);
      return [s[..n]];
    case Bad(_) =>
      Front(ToRest(s[0]), events);
      return [];
  }

  lemma SplitLate(a: seq<byte>, b: seq<byte>, n: nat)
    requires 0 < n <= |a|
    ensures (a + b)[1..n] == a[1..n] && (a + b)[n - 1..] == a[n - 1..] + b
  {
  }

  lemma DropFrom(a: seq<byte>, f: seq<byte>, t: seq<byte>, m: nat)
    requires m <= |a|
    ensures (a + f + t)[m..] == a[m..] + f + t
  {
  }

  lemma ReplayHolds(a: seq<byte>, f: seq<byte>, t: seq<byte>, n: nat)
    requires 0 < n <= |a|
    ensures var s := a + f + t; s[1..n] + s[n - 1..] == (a[1..n] + a[n - 1..]) + f + t
  {
    SplitLate(a, f + t, n);
    Assoc(a, f, t);
    Assoc(a[n - 1..], f, t);
    Assoc(a[1..n], a[n - 1..] + f, t);
    Assoc(a[1..n], a[n - 1..], f);
  }

  lemma ReplayEnds(a: seq<byte>, f: seq<byte>, t: seq<byte>)
    requires a != [] && f != [] && f[|f| - 1] == LF
    ensures var s, n := a + f + t, |a| + |f|; s[1..n] == a[1..] + f && s[n - 1..] == [LF] + t
  {
  }

  /** Unless it is emitted now, the sentence is still in the input, and no line begins before it that did not. */
  lemma AgainHolds(a: seq<byte>, f: seq<byte>, t: seq<byte>) returns (a2: seq<byte>, t2: seq<byte>)
    requires Sentence(f) && a + f + t != []
    requires Judge(Nmea0183, a + f + t) != Wait
    requires var v := Judge(Nmea0183, a + f + t); v.Frame? ==> v.n <= |a|
    ensures Again(a + f + t) == a2 + f + t2
    ensures t2 == t || t2 == [LF] + t
    ensures forall x :: Begins(x, a2) ==> Begins(x, a)
  {
    hide Judge, PastFrame, PastBad, Sentence, Begins;
    var s := a + f + t;
    HeadBefore(a, f, t);
    match Judge(Nmea0183, s)
    case Junk =>
      DropFrom(a, f, t, 1);
      BeginsTail(a, 1);
      return a[1..], t;
    case Frame(n) =>
      SentenceParts(s, n);
      DropFrom(a, f, t, n - 1);
      BeginsTail(a, n - 1);
      return a[n - 1..], t;
    case Bad(n) =>
      SentenceParts(s, n);
      if n <= |a| {
        ReplayHolds(a, f, t, n);
        assert a[n - 2] == s[n - 2] && a[n - 1] == s[n - 1];
        BeginsReplay(a, n);
        return a[1..n] + a[n - 1..], t;
      } else {
        ReplayEnds(a, f, t);
        BeginsTail(a, 1);
        return a[1..], s[n - 1..];
      }
  }

  /** A repeated LF starts no frame. */
  lemma FramesPastLf(t: seq<byte>)
    ensures FramesOf(Parse(Nmea0183, [LF] + t).events) == FramesOf(Parse(Nmea0183, t).events)
  {
    hide Parse, FramesOf;
    var events := Parse(Nmea0183, t).events;
    JunkPrefix(Nmea0183, [LF], t);
    AsRestOne([LF]);
    Front(ToRest(LF), events);
    assert [] + FramesOf(events) == FramesOf(events);
  }

  /**
   A valid sentence that lies complete in the input is sent to next, alone or, when an earlier `$` on its
   line makes a longer valid sentence, as the end of that one: nothing before or after it can hide it. The
   frames sent later are those of the input behind it.
   */
  lemma {:induction false} NoSentenceLost(a: seq<byte>, f: seq<byte>, t: seq<byte>)
    returns (before: seq<seq<byte>>, x: seq<byte>)
    requires Sentence(f)
    ensures Begins(x, a)
    ensures FramesOf(Parse(Nmea0183, a + f + t).events) == before + ([x + f] + FramesOf(Parse(Nmea0183, t).events))
    decreases Preambles(Nmea0183, a + f + t), |a + f + t|
  {
    hide Judge, Preambles, Parse, Again, Sentence, Begins, FramesOf, PastFrame;
    var s := a + f + t;
    HeadBefore(a, f, t);
    var head := AgainParses(s);
    var v := Judge(Nmea0183, s);
    FramesPastLf(t);
    if v.Frame? && v.n > |a| {
      before, x := [], a;
      SentenceParts(s, v.n);
      BeginsWhole(a, f, t);
      assert s[..v.n] == a + f && s[v.n - 1..] == [LF] + t;
      assert [] + ([x + f] + FramesOf(Parse(Nmea0183, t).events)) == head + FramesOf(Parse(Nmea0183, t).events);
    } else {
      var a2, t2 := AgainHolds(a, f, t);
      before, x := NoSentenceLost(a2, f, t2);
      Assoc(head, before, [x + f] + FramesOf(Parse(Nmea0183, t).events));
      before := head + before;
    }
  }

  /** Frame `k` ends with the sentence of `p`, and before that with `x` of its line. */
  predicate FoundAt(frames: seq<seq<byte>>, p: Piece, k: nat, x: seq<byte>) {
    k < |frames| && frames[k] == x + p.frame && Begins(x, p.junk)
  }

  predicate Rising(at: seq<nat>) {
    forall i, j :: 0 <= i < j < |at| ==> at[i] < at[j]
  }

  /** `at` finds the sentences of `pieces` among the frames, in order, each as the end of a frame of its own. */
  predicate InOrder(frames: seq<seq<byte>>, pieces: seq<Piece>, at: seq<nat>, xs: seq<seq<byte>>) {
    && |at| == |xs| == |pieces| && Rising(at)
    && (forall i :: 0 <= i < |at| ==> FoundAt(frames, pieces[i], at[i], xs[i]))
  }

  /**
   Sentences that follow each other in the input, whatever lies between them, are sent in that order, each as
   a frame of its own: `at` finds them among the frames.
   */
  lemma {:induction false} SentencesInOrder(pieces: seq<Piece>, tail: seq<byte>)
    returns (at: seq<nat>, xs: seq<seq<byte>>)
    requires forall i :: 0 <= i < |pieces| ==> Sentence(pieces[i].frame)
    ensures InOrder(FramesOf(Parse(Nmea0183, Stream(pieces, tail)).events), pieces, at, xs)
  {
    hide Parse, FramesOf, Sentence, Begins, Stream, InOrder;
    if pieces == [] {
      at, xs := [], [];
      NoneInOrder(FramesOf(Parse(Nmea0183, Stream(pieces, tail)).events));
    } else {
      var p, later := pieces[0], Stream(pieces[1..], tail);
      var before, x := NoSentenceLost(p.junk, p.frame, later);
      StreamFirst(pieces, tail);
      var at2, xs2 := SentencesInOrder(pieces[1..], tail);
      at, xs := [|before|] + Shifted(at2, |before| + 1), [x] + xs2;
      FirstInOrder(before, x, FramesOf(Parse(Nmea0183, later).events), pieces, at2, xs2);
    }
  }

  lemma NoneInOrder(frames: seq<seq<byte>>)
    ensures InOrder(frames, [], [], [])
  {
  }

  lemma FirstInOrder(before: seq<seq<byte>>, x: seq<byte>, frames: seq<seq<byte>>, pieces: seq<Piece>,
                     at: seq<nat>, xs: seq<seq<byte>>)
    requires pieces != [] && Begins(x, pieces[0].junk) && InOrder(frames, pieces[1..], at, xs)
    ensures InOrder(before + ([x + pieces[0].frame] + frames), pieces, [|before|] + Shifted(at, |before| + 1), [x] + xs)
  {
    hide Begins, FoundAt, Rising, Shifted;
    RisingFirst(at, |before|);
    var all := before + ([x + pieces[0].frame] + frames);
    var at', xs' := [|before|] + Shifted(at, |before| + 1), [x] + xs;
    FoundHere(before, x, frames, pieces[0]);
    forall i | 0 <= i < |at'| ensures FoundAt(all, pieces[i], at'[i], xs'[i]) {
      if i > 0 {
        assert pieces[1..][i - 1] == pieces[i];
        FoundBehind(before, x + pieces[0].frame, frames, pieces[i], at[i - 1], xs[i - 1]);
      }
    }
  }

  lemma RisingFirst(at: seq<nat>, k: nat)
    requires Rising(at)
    ensures Rising([k] + Shifted(at, k + 1))
  {
    var r := Shifted(at, k + 1);
    assert forall i :: 1 <= i <= |at| ==> ([k] + r)[i] == r[i - 1];
  }

  lemma FoundHere(before: seq<seq<byte>>, x: seq<byte>, frames: seq<seq<byte>>, p: Piece)
    requires Begins(x, p.junk)
    ensures FoundAt(before + ([x + p.frame] + frames), p, |before|, x)
  {
    hide Begins;
    Behind(before, x + p.frame, frames);
  }

  lemma FoundBehind(before: seq<seq<byte>>, f: seq<byte>, frames: seq<seq<byte>>, p: Piece, k: nat, x: seq<byte>)
    requires FoundAt(frames, p, k, x)
    ensures FoundAt(before + ([f] + frames), p, |before| + 1 + k, x)
  {
    hide Begins;
    Behind(before, f, frames);
  }

  lemma StreamFirst(pieces: seq<Piece>, tail: seq<byte>)
    requires pieces != []
    ensures Stream(pieces, tail) == pieces[0].junk + pieces[0].frame + Stream(pieces[1..], tail)
  {
    Assoc(pieces[0].junk, pieces[0].frame, Stream(pieces[1..], tail));
  }

  function Shifted(at: seq<nat>, k: nat): (r: seq<nat>)
    ensures |r| == |at| && forall i :: 0 <= i < |at| ==> r[i] == k + at[i]
  {
    seq(|at|, i requires 0 <= i < |at| => k + at[i])
  }

  lemma Behind<T>(before: seq<T>, e: T, later: seq<T>)
    ensures var s := before + ([e] + later);
            s[|before|] == e && forall j :: 0 <= j < |later| ==> s[|before| + 1 + j] == later[j]
  {
  }

  lemma BeginsTail(a: seq<byte>, m: nat)
    requires m <= |a|
    ensures forall x :: Begins(x, a[m..]) ==> Begins(x, a)
  {
  }

  lemma BeginsWhole(a: seq<byte>, f: seq<byte>, t: seq<byte>)
    requires CR !in a && Sentence(f)
    requires (a + f + t)[0] == Nmea0183.Preamble()
    ensures Begins(a, a)
  {
    hide Sentence;
    if a != [] {
      assert (a + f + t)[0] == a[0];
    }
  }

  /** What ends a replayed candidate and is all on one line lies beyond the candidate's LF. */
  lemma BeginsReplay(a: seq<byte>, n: nat)
    requires 3 <= n <= |a| && a[n - 2] == CR && a[n - 1] == LF
    ensures forall x :: Begins(x, a[1..n] + a[n - 1..]) ==> Begins(x, a)
  {
    var again := a[1..n] + a[n - 1..];
    assert again[n - 1] == LF && again[n - 2] == LF && again[n - 3] == CR;
    forall x | Begins(x, again) ensures Begins(x, a) {
      var k := |again| - |x|;
      assert forall i :: k <= i < |again| ==> again[i] == again[k..][i - k] != CR;
      assert x != [] ==> again[k] == x[0];
      assert again[k..] == a[k..];
    }
  }
}
