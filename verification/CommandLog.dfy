/** The text of the control file: one command per line, written by the terminal UI and read back by the proxy. */
module CommandLog {
  import opened Types

  datatype Command = Command(action: string, addr: string)

  function Encode(c: Command): string {
    c.action + ":" + c.addr + "\n"
  }

  function EncodeAll(cs: seq<Command>): string {
    if cs == [] then "" else Encode(cs[0]) + EncodeAll(cs[1..])
  }

  /** The size of a text in the file: the bytes of its UTF-8 encoding. */
  function Utf8Size(s: string): nat {
    if s == "" then 0 else Utf8Size(s[..|s| - 1]) + Utf8Width(s[|s| - 1])
  }

  function Utf8Width(c: char): nat {
    var code := c as int;
    if code < 0x80 then 1 else if code < 0x800 then 2 else if code < 0x10000 then 3 else 4
  }

  /** The position of the first `c`, or the length of the text when there is none. */
  function IndexOf(s: string, c: char): (i: nat)
    ensures i <= |s| && c !in s[..i]
    ensures i < |s| ==> s[i] == c
  {
    if s == "" || s[0] == c then 0 else
    var rest := IndexOf(s[1..], c);
    assert s[..rest + 1] == [s[0]] + s[1..][..rest];
    rest + 1
  }

  function WithoutTrailingCr(line: string): string {
    if line != "" && line[|line| - 1] == '\r' then line[..|line| - 1] else line
  }

  /** The lines of a text: a newline ends a line, together with a carriage return right before it. */
  function Lines(text: string): seq<string> {
    if text == "" then [] else
    var end := IndexOf(text, '\n');
    if end == |text| then [text] else [WithoutTrailingCr(text[..end])] + Lines(text[end + 1..])
  }

  /** The text of a file that holds these lines. */
  function FileText(log: seq<string>): string {
    if log == [] then "" else log[0] + "\n" + FileText(log[1..])
  }

  /** The lines as they are read back. */
  function ReadBack(log: seq<string>): (lines: seq<string>)
    ensures |lines| == |log|
  {
    seq(|log|, i requires 0 <= i < |log| => WithoutTrailingCr(log[i]))
  }

  /** A line split at its first colon. */
  function SplitOnce(line: string): Option<Command> {
    var colon := IndexOf(line, ':');
    if colon == |line| then None else Some(Command(line[..colon], line[colon + 1..]))
  }

  /** The commands read back from lines; lines without a colon are passed over. */
  function CommandsOf(lines: seq<string>): seq<Command> {
    if lines == [] then [] else
    (match SplitOnce(lines[0]) case Some(c) => [c] case None => []) + CommandsOf(lines[1..])
  }

  function Decode(text: string): seq<Command> {
    CommandsOf(Lines(text))
  }

  /** What a command must look like to survive the trip through the file. */
  predicate WellFormed(c: Command) {
    && ':' !in c.action
    && '\n' !in c.action
    && '\n' !in c.addr
    && !(c.addr != "" && c.addr[|c.addr| - 1] == '\r')
  }

  function LineOf(c: Command): string {
    c.action + ":" + c.addr
  }

  function LinesFor(cs: seq<Command>): seq<string> {
    seq(|cs|, i requires 0 <= i < |cs| => LineOf(cs[i]))
  }

  lemma {:induction false} FirstAt(s: string, c: char, i: nat)
    requires i <= |s| && c !in s[..i] && (i < |s| ==> s[i] == c)
    ensures IndexOf(s, c) == i
  {
    if i > 0 {
      assert s[..i] == [s[0]] + s[1..][..i - 1];
      assert s[0] in s[..i];
      FirstAt(s[1..], c, i - 1);
    }
  }

  lemma FirstLine(line: string, rest: string)
    requires '\n' !in line
    ensures Lines(line + "\n" + rest) == [WithoutTrailingCr(line)] + Lines(rest)
  {
    var text := line + "\n" + rest;
    assert text[..|line|] == line;
    FirstAt(text, '\n', |line|);
    assert text[|line| + 1..] == rest;
  }

  lemma FileTextFirst(log: seq<string>)
    requires log != []
    ensures FileText(log) == log[0] + "\n" + FileText(log[1..])
    ensures ReadBack(log) == [WithoutTrailingCr(log[0])] + ReadBack(log[1..])
  {
    hide WithoutTrailingCr;
  }

  /** Whatever newline-free lines a file holds, those are its lines, up to a carriage return at their end. */
  lemma {:induction false} LinesOfFile(log: seq<string>)
    requires forall line :: line in log ==> '\n' !in line
    ensures Lines(FileText(log)) == ReadBack(log)
  {
    if log == [] {
      assert ReadBack([]) == [];
    } else {
      hide Lines, WithoutTrailingCr, FileText, ReadBack;
      var rest := log[1..];
      assert forall line :: line in rest ==> line in log;
      LinesOfFile(rest);
      FileTextFirst(log);
      FirstLine(log[0], FileText(rest));
    }
  }

  lemma {:induction false} FileTextAppend(log: seq<string>, line: string)
    ensures FileText(log + [line]) == FileText(log) + line + "\n"
  {
    if log == [] {
      assert [line][1..] == [] && FileText([line]) == line + "\n" + FileText([]);
    } else {
      FileTextAppend(log[1..], line);
      assert (log + [line])[1..] == log[1..] + [line];
    }
  }

  lemma SplitLine(c: Command)
    requires ':' !in c.action
    ensures SplitOnce(LineOf(c)) == Some(c)
  {
    var line := LineOf(c);
    assert line[..|c.action|] == c.action;
    FirstAt(line, ':', |c.action|);
    assert line[|c.action| + 1..] == c.addr;
  }

  lemma LineKeepsItsEnd(c: Command)
    requires !(c.addr != "" && c.addr[|c.addr| - 1] == '\r')
    ensures WithoutTrailingCr(LineOf(c)) == LineOf(c)
  {
    var line := LineOf(c);
    if c.addr == "" {
      assert line[|line| - 1] == ':';
    } else {
      assert line[|line| - 1] == c.addr[|c.addr| - 1];
    }
  }

  lemma LinesForFirst(cs: seq<Command>)
    requires cs != []
    ensures LinesFor(cs) == [LineOf(cs[0])] + LinesFor(cs[1..])
  {
  }

  lemma {:induction false} CommandsOfLines(cs: seq<Command>)
    requires forall c :: c in cs ==> WellFormed(c)
    ensures CommandsOf(LinesFor(cs)) == cs
  {
    if cs != [] {
      hide SplitOnce, LineOf;
      var c, rest := cs[0], cs[1..];
      assert c in cs && forall d :: d in rest ==> d in cs;
      CommandsOfLines(rest);
      LinesForFirst(cs);
      SplitLine(c);
      assert LinesFor(cs)[1..] == LinesFor(rest);
      assert cs == [c] + rest;
    }
  }

  /** The file holds one line per well-formed command, and each line splits back into its command. */
  lemma {:induction false} LinesOfWellFormed(cs: seq<Command>)
    requires forall c :: c in cs ==> WellFormed(c)
    ensures Lines(EncodeAll(cs)) == LinesFor(cs)
    ensures CommandsOf(LinesFor(cs)) == cs
  {
    CommandsOfLines(cs);
    if cs != [] {
      hide Lines, CommandsOf, WithoutTrailingCr, LinesFor;
      var c, rest := cs[0], cs[1..];
      assert c in cs && forall d :: d in rest ==> d in cs;
      LinesOfWellFormed(rest);
      FirstLine(LineOf(c), EncodeAll(rest));
      LineKeepsItsEnd(c);
      LinesForFirst(cs);
    }
  }

  lemma SplitIsClean(line: string, c: Command)
    requires '\n' !in line && SplitOnce(line) == Some(c)
    ensures ':' !in c.action && '\n' !in c.action && '\n' !in c.addr
  {
    var colon := IndexOf(line, ':');
    assert c.action == line[..colon] && c.addr == line[colon + 1..];
  }

  /** Whatever the file holds, no command read from it has a colon in its action or a newline anywhere. */
  lemma {:induction false} DecodedFieldsAreClean(text: string, c: Command)
    requires c in Decode(text)
    ensures ':' !in c.action && '\n' !in c.action && '\n' !in c.addr
  {
    var end := IndexOf(text, '\n');
    var line := if end == |text| then text else WithoutTrailingCr(text[..end]);
    assert '\n' !in line && Lines(text)[0] == line;
    if SplitOnce(line) == Some(c) {
      SplitIsClean(line, c);
    } else {
      hide SplitOnce;
      assert c in CommandsOf(Lines(text)[1..]);
      assert end < |text|;
      assert Lines(text)[1..] == Lines(text[end + 1..]);
      DecodedFieldsAreClean(text[end + 1..], c);
    }
  }

  /**
   * Round trip: a list of commands read back from the file equals the list that was written exactly when every command
   * is well formed: no colon in its action, no newline in either field, no carriage return at its end.
   */
  lemma {:induction false} RoundTripExactlyWhenWellFormed(cs: seq<Command>)
    ensures Decode(EncodeAll(cs)) == cs <==> forall c :: c in cs ==> WellFormed(c)
  {
    if forall c :: c in cs ==> WellFormed(c) {
      LinesOfWellFormed(cs);
    } else if Decode(EncodeAll(cs)) == cs {
      RoundTripImpliesWellFormed(cs);
    }
  }

  lemma {:induction false} RoundTripImpliesWellFormed(cs: seq<Command>)
    requires Decode(EncodeAll(cs)) == cs
    ensures forall c :: c in cs ==> WellFormed(c)
  {
    if cs != [] {
      var c, rest := cs[0], cs[1..];
      DecodedFieldsAreClean(EncodeAll(cs), c);
      FirstLine(LineOf(c), EncodeAll(rest));
      var line := WithoutTrailingCr(LineOf(c));
      assert Lines(EncodeAll(cs))[1..] == Lines(EncodeAll(rest));
      if c.addr != "" && c.addr[|c.addr| - 1] == '\r' {
        var cut := Command(c.action, c.addr[..|c.addr| - 1]);
        assert line == LineOf(cut);
        SplitLine(cut);
      } else {
        LineKeepsItsEnd(c);
        SplitLine(c);
        assert Decode(EncodeAll(cs)) == [c] + Decode(EncodeAll(rest));
        assert Decode(EncodeAll(rest)) == cs[1..];
        RoundTripImpliesWellFormed(rest);
      }
    }
  }

  /** Appending a command to the file is encoding a longer list. */
  lemma {:induction false} EncodeAppend(cs: seq<Command>, c: Command)
    ensures EncodeAll(cs + [c]) == EncodeAll(cs) + Encode(c)
  {
    if cs == [] {
      assert [c][1..] == [] && EncodeAll([c]) == Encode(c) + EncodeAll([]);
    } else {
      EncodeAppend(cs[1..], c);
      assert (cs + [c])[1..] == cs[1..] + [c];
    }
  }

  lemma CarriageReturnIsDropped(line: string)
    ensures WithoutTrailingCr(line + "\r") == line
    ensures !(line != "" && line[|line| - 1] == '\r') ==> WithoutTrailingCr(line) == line
  {
    assert (line + "\r")[..|line|] == line;
  }

  lemma LastLine(line: string)
    requires '\n' !in line && line != ""
    ensures Lines(line) == [line]
  {
    assert line[..|line|] == line;
    FirstAt(line, '\n', |line|);
  }

  /**
   * Line endings: a line ends at a newline or at a carriage return and a newline, neither of which belongs to it; a
   * last line without a newline keeps all its characters.
   */
  lemma LineEndings(line: string, rest: string)
    requires '\n' !in line
    ensures Lines(line + "\r\n" + rest) == [line] + Lines(rest)
    ensures !(line != "" && line[|line| - 1] == '\r') ==> Lines(line + "\n" + rest) == [line] + Lines(rest)
    ensures line != "" ==> Lines(line) == [line]
  {
    hide Lines, WithoutTrailingCr;
    CarriageReturnIsDropped(line);
    FirstLine(line, rest);
    FirstLine(line + "\r", rest);
    assert line + "\r" + "\n" == line + "\r\n";
    if line != "" {
      LastLine(line);
    }
  }

  // Sizes are those of the UTF-8 encoding (section 3 of RFC 3629)

  function Utf8Char(c: char): seq<int> {
    var code := c as int;
    if code < 0x80 then [code]
    else if code < 0x800 then [0xC0 + code / 64, 0x80 + code % 64]
    else if code < 0x10000 then [0xE0 + code / 4096, 0x80 + code / 64 % 64, 0x80 + code % 64]
    else [0xF0 + code / 262144, 0x80 + code / 4096 % 64, 0x80 + code / 64 % 64, 0x80 + code % 64]
  }

  function Utf8Text(s: string): seq<int> {
    if s == "" then [] else Utf8Text(s[..|s| - 1]) + Utf8Char(s[|s| - 1])
  }

  /** The code point that the lead byte and the continuation bytes after it stand for. */
  function CodePoint(bytes: seq<int>): int {
    if |bytes| == 1 then bytes[0]
    else if |bytes| == 2 then (bytes[0] - 0xC0) * 64 + (bytes[1] - 0x80)
    else if |bytes| == 3 then (bytes[0] - 0xE0) * 4096 + (bytes[1] - 0x80) * 64 + (bytes[2] - 0x80)
    else if |bytes| == 4 then
      (bytes[0] - 0xF0) * 262144 + (bytes[1] - 0x80) * 4096 + (bytes[2] - 0x80) * 64 + (bytes[3] - 0x80)
    else 0
  }

  /**
   * The encoding of a character takes as many bytes as the size says, gives the character back, and is the shortest:
   * the lead byte tells the length, and every other byte is a continuation byte.
   */
  lemma Utf8CharDecodes(c: char)
    ensures var bytes := Utf8Char(c);
      && |bytes| == Utf8Width(c) && CodePoint(bytes) == c as int
      && (forall k :: 1 <= k < |bytes| ==> 0x80 <= bytes[k] < 0xC0)
      && match |bytes|
         case 1 => bytes[0] < 0x80
         case 2 => 0xC2 <= bytes[0] < 0xE0
         case 3 => 0xE0 <= bytes[0] < 0xF0 && (bytes[0] == 0xE0 ==> 0xA0 <= bytes[1])
         case _ => 0xF0 <= bytes[0] <= 0xF4 && (bytes[0] == 0xF0 ==> 0x90 <= bytes[1])
  {
    var code := c as int;
    var high, low := code / 64, code % 64;
    assert code == 64 * high + low;
    if code >= 0x10000 {
      assert code / 4096 == high / 64 && code / 262144 == high / 64 / 64;
    } else if code >= 0x800 {
      assert code / 4096 == high / 64;
    }
  }

  /** The size of a text is the number of bytes of its encoding. */
  lemma {:induction false} SizeIsUtf8Length(s: string)
    ensures Utf8Size(s) == |Utf8Text(s)|
  {
    if s != "" {
      SizeIsUtf8Length(s[..|s| - 1]);
      Utf8CharDecodes(s[|s| - 1]);
    }
  }
}
