/** A line ending leaves no sentence unfinished: why judging a sentence always ends in state BEFORE. */
module NmeaLines {
  import opened Bytes
  import opened Protocols
  import opened Parser

  /** The input ends with LF, and with CR before its last run of LFs unless it is nothing but LFs. */
  predicate EndsLine(s: seq<byte>) {
    && s != [] && s[|s| - 1] == LF
    && (|s| == 1 || s[|s| - 2] == CR || EndsLine(s[..|s| - 1]))
  }

  lemma {:induction false} EndsSuffix(s: seq<byte>, m: nat)
    requires EndsLine(s) && m < |s|
    ensures EndsLine(s[m..])
  {
    var t := s[m..];
    if |t| > 1 && s[|s| - 2] != CR {
      EndsSuffix(s[..|s| - 1], m);
      assert s[..|s| - 1][m..] == t[..|t| - 1];
    }
  }

  lemma {:induction false} EndsConcat(s: seq<byte>, t: seq<byte>)
    requires EndsLine(s) && EndsLine(t)
    ensures EndsLine(s + t)
  {
    var st := s + t;
    assert st[..|st| - 1] == s + t[..|t| - 1];
    if |t| == 1 {
      assert s + t[..0] == s;
    } else if t[|t| - 2] != CR {
      EndsConcat(s, t[..|t| - 1]);
    }
  }

  /** A sentence that is ended is not waited for. */
  lemma {:induction false} EndsEarly(s: seq<byte>)
    requires EndsLine(s) && s[0] != LF
    ensures IndexOf(s, CR) + 1 < |s|
  {
    hide IndexOf;
    var i := IndexOf(s, CR);
    if s[|s| - 2] == CR {
      assert i <= |s| - 2;
    } else {
      var init := s[..|s| - 1];
      EndsEarly(init);
      assert s[IndexOf(init, CR)] == CR;
    }
  }

  /** A judged sentence ends with its first CR and an LF. */
  lemma SentenceParts(s: seq<byte>, n: nat)
    requires s != [] && (Judge(Nmea0183, s) == Frame(n) || Judge(Nmea0183, s) == Bad(n))
    ensures 3 <= n <= |s| && n == IndexOf(s, CR) + 2 && s[n - 2] == CR && s[n - 1] == LF
    ensures s[0] == Nmea0183.Preamble()
    ensures PastFrame(Nmea0183, s, n) == s[n - 1..] && PastBad(Nmea0183, s, n) == s[1..n] + s[n - 1..]
  {
    hide Checks, IndexOf;
    assert IndexOf(s, CR) != 0;
  }

  lemma SentenceEnds(s: seq<byte>, n: nat)
    requires 3 <= n <= |s| && s[n - 2] == CR && s[n - 1] == LF
    ensures EndsLine(s[1..n])
  {
  }

  lemma {:induction false} NothingHeld(s: seq<byte>)
    requires s == [] || EndsLine(s)
    ensures Parse(Nmea0183, s).held == []
    decreases Preambles(Nmea0183, s), |s|
  {
    hide Judge, Preambles, EndsLine, PastFrame, PastBad;
    if s != [] {
      Progress(Nmea0183, s);
      match Judge(Nmea0183, s)
      case Junk =>
        if |s| > 1 {
          EndsSuffix(s, 1);
        }
        NothingHeld(s[1..]);
      case Wait => NotWaiting(s);
      case Frame(n) =>
        SentenceParts(s, n);
        EndsSuffix(s, n - 1);
        NothingHeld(PastFrame(Nmea0183, s, n));
      case Bad(n) =>
        SentenceParts(s, n);
        SentenceEnds(s, n);
        EndsSuffix(s, n - 1);
        EndsConcat(s[1..n], s[n - 1..]);
        NothingHeld(PastBad(Nmea0183, s, n));
    }
  }

  lemma NotWaiting(s: seq<byte>)
    requires EndsLine(s)
    ensures Judge(Nmea0183, s) != Wait
  {
    hide Checks, IndexOf;
    if s[0] == Nmea0183.Preamble() {
      EndsEarly(s);
    }
  }
}
