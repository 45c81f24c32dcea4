/** The hex dump: sixteen bytes to a line, as offset, printable characters and hexadecimal columns. */
module Hexes {
  import opened Bytes
  import opened Parser
  import opened Filters

  // ---------- the dump ----------

  /** A lower-case hexadecimal digit. */
  function Digit(n: nat): char
    requires n < 16
  {
    "0123456789abcdef"[n]
  }

  function HexNumber(n: nat): string {
    if n < 16 then [Digit(n)] else HexNumber(n / 16) + [Digit(n % 16)]
  }

  function Repeat(c: char, n: nat): (s: string)
    ensures |s| == n
  {
    seq(n, _ => c)
  }

  /** `setw` with the padding on the left. */
  function PadLeft(s: string, width: nat, fill: char): string {
    if |s| < width then Repeat(fill, width - |s|) + s else s
  }

  /** `setw` with the padding on the right. */
  function PadRight(s: string, width: nat, fill: char): string {
    if |s| < width then s + Repeat(fill, width - |s|) else s
  }

  /** `isprint` in the C locale. */
  function Printable(b: byte): char {
    if 32 <= Val(b) <= 126 then Val(b) as char else '.'
  }

  function Raw(s: seq<byte>): (r: string)
    ensures |r| == |s|
    ensures '\n' !in r
  {
    if s == [] then "" else
      NoNewline(s[|s| - 1]);
      Raw(s[..|s| - 1]) + [Printable(s[|s| - 1])]
  }

  lemma NoNewline(b: byte)
    ensures Printable(b) != '\n'
  {
  }

  /** Two digits and a space for each byte. */
  function Columns(s: seq<byte>): (r: string)
    ensures |r| == 3 * |s|
  {
    if s == [] then ""
    else
      var v := Val(s[|s| - 1]);
      Columns(s[..|s| - 1]) + [Digit(v / 16), Digit(v % 16), ' ']
  }

  function LineOf(offset: nat, s: seq<byte>): string {
    PadLeft(HexNumber(offset), 4, '0') + " : " + PadRight(Raw(s), 17, ' ') + PadRight(Columns(s), 48, ' ')
  }

  function Dump(offset: nat, s: seq<byte>): string
    decreases |s|
  {
    if s == [] then ""
    else if |s| <= 16 then LineOf(offset, s) + "\n"
    else LineOf(offset, s[..16]) + "\n" + Dump(offset + 16, s[16..])
  }

  // ---------- `write` ----------

  /** The byte of a character. */
  function CharByte(c: char): byte {
    ToByte(c as int % 256)
  }

  function BytesOfText(text: string): (s: seq<byte>)
    ensures |s| == |text|
  {
    seq(|text|, i requires 0 <= i < |text| => CharByte(text[i]))
  }

  class Hex {
    const base: FilterBase

    ghost predicate Valid()
      reads this, base, base.Repr
    {
      base.Valid() && this !in base.Repr
    }

    constructor ()
      ensures Valid() && fresh(base) && fresh(base.Repr) && base.Unwired()
    {
      base := new FilterBase();
    }

    /** The inner loop: the two halves of a line. */
    method Row(buf: array<byte>, from: nat, pack: nat) returns (raw: string, hex: string)
      requires from + pack <= buf.Length
      ensures raw == Raw(buf[from..from + pack]) && hex == Columns(buf[from..from + pack])
    {
      hide Digit, Printable, Val;
      raw, hex := "", "";
      for i := from to from + pack
        invariant raw == Raw(buf[from..i])
        invariant hex == Columns(buf[from..i])
      {
        assert buf[from..i + 1][..i - from] == buf[from..i];
        raw := raw + [Printable(buf[i])];
        hex := hex + [Digit(Val(buf[i]) / 16), Digit(Val(buf[i]) % 16), ' '];
      }
    }

    /** The text of a dump, line by line. */
    method Print(buf: array<byte>, off: nat, len: nat) returns (out: string)
      requires off + len <= buf.Length
      ensures out == Dump(0, buf[off..off + len])
    {
      hide LineOf, Dump, HexNumber, PadLeft, PadRight, Raw, Columns;
      ghost var data := buf[off..off + len];
      out := "";
      var bytesOut := 0;
      while bytesOut < len
        invariant bytesOut <= len
        invariant out + Dump(bytesOut, data[bytesOut..]) == Dump(0, data)
      {
        var pack := if len - bytesOut < 16 then len - bytesOut else 16;
        var raw, hex := Row(buf, off + bytesOut, pack);
        ghost var here, later := data[bytesOut..][..pack], data[bytesOut..][pack..];
        DumpPieces(data, bytesOut, bytesOut + pack);
        assert data[bytesOut..bytesOut + pack] == buf[off + bytesOut..off + bytesOut + pack];
        var line := PadLeft(HexNumber(bytesOut), 4, '0') + " : " + PadRight(raw, 17, ' ') + PadRight(hex, 48, ' ');
        LineIs(bytesOut, here);
        DumpStep(bytesOut, data[bytesOut..], pack);
        Regroup(out, line, Dump(bytesOut + pack, later));
        out := out + line + "\n";
        bytesOut := bytesOut + pack;
      }
      DumpNothing(data, bytesOut, out);
    }

    /** `write`: the dump goes to next as one frame, counted like any other. */
    method Write(buf: array<byte>, off: nat, len: nat) returns (ret: nat)
      requires Valid() && buf !in base.Repr && off + len <= buf.Length
      modifies base.Repr
      ensures ret == len && Valid() && base.Kept()
      ensures base.events == old(base.events) + [ToNext(BytesOfText(Dump(0, old(buf[off..off + len]))))]
    {
      hide Dump, CharByte, FilterBase.Valid;
      var out := Print(buf, off, len);
      var packet := new byte[|out|](i requires 0 <= i < |out| => CharByte(out[i]));
      assert packet[0..|out|] == BytesOfText(out);
      base.WriteNext(packet, 0, packet.Length);
      ret := len;
    }
  }

  lemma Regroup(out: string, line: string, later: string)
    ensures out + (line + "\n" + later) == out + line + "\n" + later
  {
  }

  lemma LineIs(offset: nat, s: seq<byte>)
    ensures LineOf(offset, s)
         == PadLeft(HexNumber(offset), 4, '0') + " : " + PadRight(Raw(s), 17, ' ') + PadRight(Columns(s), 48, ' ')
  {
  }

  lemma DumpNothing(data: seq<byte>, offset: nat, out: string)
    requires offset == |data|
    ensures out + Dump(offset, data[offset..]) == out
  {
  }

  lemma DumpPieces(data: seq<byte>, i: nat, j: nat)
    requires i <= j <= |data|
    ensures data[i..][..j - i] == data[i..j] && data[i..][j - i..] == data[j..]
  {
  }

  lemma DumpStep(offset: nat, s: seq<byte>, n: nat)
    requires s != [] && n == if |s| < 16 then |s| else 16
    ensures Dump(offset, s) == LineOf(offset, s[..n]) + "\n" + Dump(offset + n, s[n..])
  {
    hide LineOf;
    if |s| <= 16 {
      assert s[..n] == s && s[n..] == [];
      assert Dump(offset + n, []) == "";
    }
  }

  // ---------- reading a dump ----------

  /** The value of a digit, or -1. */
  function DigitValue(c: char): int {
    if '0' <= c <= '9' then c as int - '0' as int
    else if 'a' <= c <= 'f' then c as int - 'a' as int + 10
    else -1
  }

  /** The bytes in the hexadecimal columns, up to the first blank column. */
  function ReadColumns(cols: string): seq<byte> {
    if |cols| < 3 || DigitValue(cols[0]) < 0 || DigitValue(cols[1]) < 0 then []
    else [ToByte(16 * DigitValue(cols[0]) + DigitValue(cols[1]))] + ReadColumns(cols[3..])
  }

  function EndOfLine(text: string): (k: nat)
    ensures k <= |text|
  {
    if text == "" || text[0] == '\n' then 0 else 1 + EndOfLine(text[1..])
  }

  /** Reads the last 48 columns of each line. */
  function ReadDump(text: string): seq<byte>
    decreases |text|
  {
    if text == "" then []
    else
      var k := EndOfLine(text);
      var line := text[..k];
      var here := ReadColumns(if |line| < 48 then line else line[|line| - 48..]);
      if k == |text| then here else here + ReadDump(text[k + 1..])
  }

  function Lines(text: string): nat {
    if text == "" then 0 else (if text[0] == '\n' then 1 else 0) + Lines(text[1..])
  }

  // ---------- reading inverts writing ----------

  lemma DigitReads(n: nat)
    requires n < 16
    ensures DigitValue(Digit(n)) == n && Digit(n) != '\n' && Digit(n) != ' '
  {
  }

  lemma {:induction false} EndOfFirstLine(line: string, rest: string)
    requires '\n' !in line
    ensures EndOfLine(line + "\n" + rest) == |line|
    ensures Lines(line + "\n" + rest) == 1 + Lines(rest)
  {
    var text := line + "\n" + rest;
    if line == "" {
      assert text[0] == '\n' && text[1..] == rest;
    } else {
      assert text[0] == line[0] && text[1..] == line[1..] + "\n" + rest;
      EndOfFirstLine(line[1..], rest);
    }
  }

  lemma {:induction false} ColumnsFront(s: seq<byte>)
    requires s != []
    ensures Columns(s) == [Digit(Val(s[0]) / 16), Digit(Val(s[0]) % 16), ' '] + Columns(s[1..])
  {
    hide Digit, Val;
    var k := |s| - 1;
    if k == 0 {
      assert s[..0] == [] && s[1..] == [];
    } else {
      ColumnsFront(s[..k]);
      assert s[..k][1..] == s[1..][..k - 1];
    }
  }

  lemma ReadByte(b: byte)
    ensures DigitValue(Digit(Val(b) / 16)) == Val(b) / 16 && DigitValue(Digit(Val(b) % 16)) == Val(b) % 16
    ensures ToByte(Val(b)) == b
  {
    hide ToByte, Val;
    DigitReads(Val(b) / 16);
    DigitReads(Val(b) % 16);
    SameValue(ToByte(Val(b)), b);
  }

  lemma SameValue(a: byte, b: byte)
    requires Val(a) == Val(b)
    ensures a == b
  {
  }

  /** Columns are read back, whatever blanks follow them. */
  lemma {:induction false} ReadBack(s: seq<byte>, blanks: nat)
    ensures ReadColumns(Columns(s) + Repeat(' ', blanks)) == s
  {
    hide Digit, Val, ToByte, Columns;
    var cols := Columns(s) + Repeat(' ', blanks);
    if s == [] {
      NoColumns();
      BlankIsNoDigit();
    } else {
      ColumnsFront(s);
      ReadByte(s[0]);
      assert cols[3..] == Columns(s[1..]) + Repeat(' ', blanks);
      ReadBack(s[1..], blanks);
      assert 16 * (Val(s[0]) / 16) + Val(s[0]) % 16 == Val(s[0]);
      assert s == [s[0]] + s[1..];
    }
  }

  lemma NoColumns()
    ensures Columns([]) == ""
  {
  }

  lemma BlankIsNoDigit()
    ensures DigitValue(' ') == -1
  {
  }

  lemma {:induction false} ColumnsNoNewline(s: seq<byte>)
    ensures '\n' !in Columns(s)
  {
    hide Digit, Val;
    if s != [] {
      ColumnsNoNewline(s[..|s| - 1]);
      DigitReads(Val(s[|s| - 1]) / 16);
      DigitReads(Val(s[|s| - 1]) % 16);
    }
  }

  lemma {:induction false} NumberNoNewline(n: nat)
    ensures '\n' !in HexNumber(n)
  {
    hide Digit;
    DigitReads(n % 16);
    if n >= 16 {
      NumberNoNewline(n / 16);
    }
  }

  /** A line has no line break inside, and its last 48 columns read as its bytes. */
  lemma LineReads(offset: nat, s: seq<byte>)
    requires |s| <= 16
    ensures '\n' !in LineOf(offset, s) && |LineOf(offset, s)| >= 48
    ensures ReadColumns(LineOf(offset, s)[|LineOf(offset, s)| - 48..]) == s
  {
    hide Raw, Columns, HexNumber, ReadColumns;
    NumberNoNewline(offset);
    ColumnsNoNewline(s);
    var cols := PadRight(Columns(s), 48, ' ');
    assert LineOf(offset, s)[|LineOf(offset, s)| - 48..] == cols;
    assert cols == Columns(s) + Repeat(' ', 48 - 3 * |s|);
    ReadBack(s, 48 - 3 * |s|);
  }

  /** One more line of a dump, for a reader. */
  lemma ReadLine(line: string, rest: string)
    requires '\n' !in line && |line| >= 48
    ensures ReadDump(line + "\n" + rest) == ReadColumns(line[|line| - 48..]) + ReadDump(rest)
  {
    hide ReadColumns, EndOfLine;
    var text := line + "\n" + rest;
    EndOfFirstLine(line, rest);
    assert text[..|line|] == line && text[|line| + 1..] == rest;
  }

  lemma LineCount(n: nat)
    requires n > 0
    ensures (n + 15) / 16 == if n < 16 then 1 else 1 + (n - 16 + 15) / 16
  {
  }

  /** Reading the last 48 columns of every line gives the bytes back; there is a line for every sixteen bytes. */
  lemma {:induction false} DumpReads(offset: nat, s: seq<byte>)
    ensures ReadDump(Dump(offset, s)) == s
    ensures Lines(Dump(offset, s)) == (|s| + 15) / 16
    decreases |s|
  {
    hide LineOf, ReadDump, ReadColumns, Lines, Dump;
    if s == [] {
      NothingToRead(offset);
    } else {
      var n := if |s| < 16 then |s| else 16;
      DumpStep(offset, s, n);
      LineReads(offset, s[..n]);
      ReadLine(LineOf(offset, s[..n]), Dump(offset + n, s[n..]));
      EndOfFirstLine(LineOf(offset, s[..n]), Dump(offset + n, s[n..]));
      DumpReads(offset + n, s[n..]);
      assert s == s[..n] + s[n..];
      LineCount(|s|);
    }
  }

  lemma NothingToRead(offset: nat)
    ensures Dump(offset, []) == "" && ReadDump("") == [] && Lines("") == 0
  {
  }

  // ---------- every column of a line ----------

  /** A number in hexadecimal digits. */
  function ReadNumber(text: string): int {
    if text == "" then 0 else 16 * ReadNumber(text[..|text| - 1]) + DigitValue(text[|text| - 1])
  }

  predicate AllDigits(text: string) {
    forall i :: 0 <= i < |text| ==> DigitValue(text[i]) >= 0
  }

  lemma {:induction false} NumberReads(n: nat)
    ensures AllDigits(HexNumber(n)) && ReadNumber(HexNumber(n)) == n
    ensures HexNumber(n) != "" && (n > 0 ==> HexNumber(n)[0] != '0')
  {
    hide Digit, DigitValue;
    DigitReads(n % 16);
    ReadNothing();
    if n < 16 {
      FirstDigit(n);
      assert [Digit(n)][..0] == [];
    } else {
      NumberReads(n / 16);
      var front := HexNumber(n / 16);
      assert (front + [Digit(n % 16)])[..|front|] == front;
    }
  }

  lemma ReadNothing()
    ensures ReadNumber("") == 0
  {
  }

  lemma FirstDigit(n: nat)
    requires n < 16
    ensures n > 0 ==> Digit(n) != '0'
  {
  }

  /** Zeros in front change nothing. */
  lemma {:induction false} ZerosRead(k: nat, text: string)
    requires AllDigits(text)
    ensures AllDigits(Repeat('0', k) + text) && ReadNumber(Repeat('0', k) + text) == ReadNumber(text)
  {
    hide ReadNumber, AllDigits, DigitValue;
    if text != "" {
      var front, last := text[..|text| - 1], text[|text| - 1];
      assert text == front + [last];
      DigitsMore(front, last);
      ReadMore(front, last);
      ZerosRead(k, front);
      DigitsMore(Repeat('0', k) + front, last);
      ReadMore(Repeat('0', k) + front, last);
      assert Repeat('0', k) + text == (Repeat('0', k) + front) + [last];
    } else {
      assert Repeat('0', k) + "" == Repeat('0', k);
      ZerosAlone(k);
    }
  }

  lemma DigitsMore(text: string, c: char)
    ensures AllDigits(text + [c]) <==> AllDigits(text) && DigitValue(c) >= 0
  {
    hide DigitValue;
    var more := text + [c];
    assert more[|text|] == c;
    assert forall i :: 0 <= i < |text| ==> more[i] == text[i];
  }

  lemma ReadMore(text: string, c: char)
    ensures ReadNumber(text + [c]) == 16 * ReadNumber(text) + DigitValue(c)
  {
    hide DigitValue;
    assert (text + [c])[..|text|] == text;
  }

  lemma {:induction false} ZerosAlone(k: nat)
    ensures AllDigits(Repeat('0', k)) && ReadNumber(Repeat('0', k)) == ReadNumber("") == 0
  {
    ReadNothing();
    if k > 0 {
      ZerosAlone(k - 1);
      assert Repeat('0', k)[..k - 1] == Repeat('0', k - 1);
    } else {
      assert Repeat('0', k) == "";
    }
  }

  lemma {:induction false} RawAt(s: seq<byte>, i: nat)
    requires i < |s|
    ensures Raw(s)[i] == Printable(s[i])
  {
    if i < |s| - 1 {
      RawAt(s[..|s| - 1], i);
    }
  }

  lemma {:induction false} ColumnsAt(s: seq<byte>, i: nat)
    requires i < |s|
    ensures var c := Columns(s);
            c[3 * i] == Digit(Val(s[i]) / 16) && c[3 * i + 1] == Digit(Val(s[i]) % 16) && c[3 * i + 2] == ' '
  {
    hide Digit, Val;
    if i < |s| - 1 {
      ColumnsAt(s[..|s| - 1], i);
    }
  }

  /** The character of the text column: the byte itself when it is printable, a dot when not, blanks behind. */
  function Shown(s: seq<byte>, i: nat): char {
    if i < |s| then (if 0x20 <= Val(s[i]) <= 0x7e then Val(s[i]) as char else '.') else ' '
  }

  /** The character of the hexadecimal columns: two digits and a blank for each byte, blanks behind. */
  function HexShown(s: seq<byte>, i: nat): char {
    if i / 3 < |s| && i % 3 == 0 then "0123456789abcdef"[Val(s[i / 3]) / 16]
    else if i / 3 < |s| && i % 3 == 1 then "0123456789abcdef"[Val(s[i / 3]) % 16]
    else ' '
  }

  /** A line of a dump, column by column: offset, " : ", seventeen characters of text, 48 of hexadecimal. */
  predicate Shows(line: string, offset: nat, s: seq<byte>) {
    var n := |line| - 68;
    && n >= 4
    && AllDigits(line[..n]) && ReadNumber(line[..n]) == offset && (n > 4 ==> line[0] != '0')
    && line[n..n + 3] == " : "
    && (forall i :: 0 <= i < 17 ==> line[n + 3 + i] == Shown(s, i))
    && (forall i :: 0 <= i < 48 ==> line[n + 20 + i] == HexShown(s, i))
  }

  lemma LineShows(offset: nat, s: seq<byte>)
    requires |s| <= 16
    ensures Shows(LineOf(offset, s), offset, s)
  {
    hide Raw, Columns, HexNumber, ReadNumber, AllDigits, Shown, HexShown;
    var number := PadLeft(HexNumber(offset), 4, '0');
    var raw, cols := PadRight(Raw(s), 17, ' '), PadRight(Columns(s), 48, ' ');
    NumberShows(offset);
    Parts(number, raw, cols);
    forall i | 0 <= i < 17 ensures raw[i] == Shown(s, i) {
      RawShows(s, i);
    }
    forall i | 0 <= i < 48 ensures cols[i] == HexShown(s, i) {
      ColumnsShow(s, i);
    }
  }

  lemma Parts(number: string, raw: string, cols: string)
    requires |raw| == 17 && |cols| == 48
    ensures var line, n := number + " : " + raw + cols, |number|;
            && line[..n] == number && line[n..n + 3] == " : "
            && (forall i :: 0 <= i < 17 ==> line[n + 3 + i] == raw[i])
            && (forall i :: 0 <= i < 48 ==> line[n + 20 + i] == cols[i])
  {
  }

  lemma NumberShows(offset: nat)
    ensures var number := PadLeft(HexNumber(offset), 4, '0');
            && AllDigits(number) && ReadNumber(number) == offset
            && |number| >= 4 && (|number| > 4 ==> number[0] != '0')
  {
    hide ReadNumber, AllDigits, HexNumber;
    NumberReads(offset);
    if |HexNumber(offset)| < 4 {
      ZerosRead(4 - |HexNumber(offset)|, HexNumber(offset));
    } else if offset == 0 {
      ZeroIsShort();
    }
  }

  lemma ZeroIsShort()
    ensures |HexNumber(0)| == 1
  {
  }

  lemma RawShows(s: seq<byte>, i: nat)
    requires |s| <= 16 && i < 17
    ensures PadRight(Raw(s), 17, ' ')[i] == Shown(s, i)
  {
    hide Raw, Val;
    if i < |s| {
      RawAt(s, i);
    }
  }

  lemma ColumnsShow(s: seq<byte>, i: nat)
    requires |s| <= 16 && i < 48
    ensures PadRight(Columns(s), 48, ' ')[i] == HexShown(s, i)
  {
    hide Columns;
    if i < 3 * |s| {
      ColumnShows(s, i);
    } else {
      Beyond(s, i);
    }
  }

  lemma Beyond(s: seq<byte>, i: nat)
    requires i >= 3 * |s|
    ensures HexShown(s, i) == ' '
  {
    assert i / 3 >= |s|;
  }

  lemma ColumnShows(s: seq<byte>, i: nat)
    requires i < 3 * |s|
    ensures Columns(s)[i] == HexShown(s, i)
  {
    hide Columns, Val, Digit;
    var j := i / 3;
    ColumnsAt(s, j);
    DigitIs(Val(s[j]) / 16);
    DigitIs(Val(s[j]) % 16);
    ThreeColumns(i);
  }

  lemma ThreeColumns(i: nat)
    ensures i % 3 == 0 ==> i == 3 * (i / 3)
    ensures i % 3 == 1 ==> i == 3 * (i / 3) + 1
    ensures i % 3 != 0 && i % 3 != 1 ==> i == 3 * (i / 3) + 2
  {
  }

  lemma DigitIs(n: nat)
    requires n < 16
    ensures Digit(n) == "0123456789abcdef"[n]
  {
  }

  // ---------- every line of a dump ----------

  /** The lines of a text, without their line breaks. */
  function SplitLines(text: string): seq<string>
    decreases |text|
  {
    if text == "" then []
    else
      var k := EndOfLine(text);
      [text[..k]] + if k == |text| then [] else SplitLines(text[k + 1..])
  }

  lemma FirstLine(line: string, rest: string)
    requires '\n' !in line
    ensures SplitLines(line + "\n" + rest) == [line] + SplitLines(rest)
  {
    hide EndOfLine;
    var text := line + "\n" + rest;
    EndOfFirstLine(line, rest);
    assert text[..|line|] == line && text[|line| + 1..] == rest;
  }

  /** The bytes of line `j`. */
  function Sixteen(s: seq<byte>, j: nat): seq<byte>
    requires 16 * j <= |s|
  {
    if |s| < 16 * j + 16 then s[16 * j..] else s[16 * j..16 * j + 16]
  }

  /** Sixteen bytes to a line, each line with the offset of its first byte. */
  predicate ShowsAll(lines: seq<string>, offset: nat, s: seq<byte>) {
    && |lines| == (|s| + 15) / 16
    && forall j :: 0 <= j < |lines| ==> Shows(lines[j], offset + 16 * j, Sixteen(s, j))
  }

  lemma {:induction false} DumpShows(offset: nat, s: seq<byte>)
    ensures ShowsAll(SplitLines(Dump(offset, s)), offset, s)
    decreases |s|
  {
    hide LineOf, Shows, ShowsAll, SplitLines, Dump;
    if s == [] {
      NothingToRead(offset);
      NoLines(offset);
    } else {
      var n := if |s| < 16 then |s| else 16;
      var line, later := LineOf(offset, s[..n]), SplitLines(Dump(offset + n, s[n..]));
      DumpStep(offset, s, n);
      LineReads(offset, s[..n]);
      LineShows(offset, s[..n]);
      FirstLine(line, Dump(offset + n, s[n..]));
      DumpShows(offset + n, s[n..]);
      AllShown(line, later, offset, s);
    }
  }

  lemma AllShown(line: string, later: seq<string>, offset: nat, s: seq<byte>)
    requires s != []
    requires var n := if |s| < 16 then |s| else 16;
             Shows(line, offset, s[..n]) && ShowsAll(later, offset + n, s[n..])
    ensures ShowsAll([line] + later, offset, s)
  {
    hide Shows, Sixteen;
    var lines := [line] + later;
    var n := if |s| < 16 then |s| else 16;
    FirstSixteen(s);
    forall j | 0 <= j < |lines| ensures Shows(lines[j], offset + 16 * j, Sixteen(s, j)) {
      if j > 0 {
        LaterSixteen(s, j);
        assert Shows(later[j - 1], offset + n + 16 * (j - 1), Sixteen(s[n..], j - 1));
      }
    }
  }

  lemma FirstSixteen(s: seq<byte>)
    ensures Sixteen(s, 0) == s[..if |s| < 16 then |s| else 16]
  {
  }

  lemma LaterSixteen(s: seq<byte>, j: nat)
    requires 0 < j && 16 <= |s| && 16 * j <= |s|
    ensures Sixteen(s[16..], j - 1) == Sixteen(s, j)
  {
  }

  lemma NoLines(offset: nat)
    ensures ShowsAll(SplitLines(""), offset, [])
  {
  }

  // ---------- the dump as bytes ----------

  /** The text of bytes. */
  function TextOf(s: seq<byte>): (text: string)
    ensures |text| == |s|
  {
    seq(|s|, i requires 0 <= i < |s| => Val(s[i]) as char)
  }

  /** Every character is one byte. */
  predicate Narrow(text: string) {
    forall i :: 0 <= i < |text| ==> text[i] as int < 256
  }

  lemma NarrowReads(text: string)
    requires Narrow(text)
    ensures TextOf(BytesOfText(text)) == text
  {
    hide Val;
  }

  lemma DigitIsNarrow(n: nat)
    requires n < 16
    ensures Digit(n) as int < 256
  {
  }

  lemma {:induction false} NumberIsNarrow(n: nat)
    ensures Narrow(HexNumber(n))
  {
    hide Digit;
    DigitIsNarrow(n % 16);
    if n >= 16 {
      NumberIsNarrow(n / 16);
    }
  }

  lemma {:induction false} RawIsNarrow(s: seq<byte>)
    ensures Narrow(Raw(s))
  {
    if s != [] {
      RawIsNarrow(s[..|s| - 1]);
    }
  }

  lemma {:induction false} ColumnsAreNarrow(s: seq<byte>)
    ensures Narrow(Columns(s))
  {
    hide Digit, Val;
    if s != [] {
      ColumnsAreNarrow(s[..|s| - 1]);
      DigitIsNarrow(Val(s[|s| - 1]) / 16);
      DigitIsNarrow(Val(s[|s| - 1]) % 16);
    }
  }

  lemma LineIsNarrow(offset: nat, s: seq<byte>)
    ensures Narrow(LineOf(offset, s))
  {
    hide HexNumber, Raw, Columns;
    NumberIsNarrow(offset);
    RawIsNarrow(s);
    ColumnsAreNarrow(s);
  }

  lemma {:induction false} DumpIsNarrow(offset: nat, s: seq<byte>)
    ensures Narrow(Dump(offset, s))
    decreases |s|
  {
    hide LineOf;
    if s != [] {
      var n := if |s| < 16 then |s| else 16;
      LineIsNarrow(offset, s[..n]);
      DumpStep(offset, s, n);
      DumpIsNarrow(offset + n, s[n..]);
    }
  }

  /** The frame that `write` sends to next reads back as the bytes it was given. */
  lemma FrameReads(s: seq<byte>)
    ensures ReadDump(TextOf(BytesOfText(Dump(0, s)))) == s
  {
    hide Dump, ReadDump, TextOf, BytesOfText;
    DumpIsNarrow(0, s);
    NarrowReads(Dump(0, s));
    DumpReads(0, s);
  }

  /** What it shows: every byte in the text and in the hexadecimal columns of its line. */
  lemma FrameShows(s: seq<byte>)
    ensures ShowsAll(SplitLines(TextOf(BytesOfText(Dump(0, s)))), 0, s)
  {
    hide Dump, SplitLines, TextOf, BytesOfText, ShowsAll;
    DumpIsNarrow(0, s);
    NarrowReads(Dump(0, s));
    DumpShows(0, s);
  }
}
