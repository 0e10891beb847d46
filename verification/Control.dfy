/**
 * The control-file monitor of the proxy: every half second it reads the whole command file if it has grown, skips a
 * twentieth of the bytes it had seen before as lines, and applies the rest to the pool.
 */
module Control {
  import opened Types
  import opened Pool
  import opened CommandLog

  type Parser = string -> Option<SocketAddr>

  const BYTES_PER_LINE: nat := 20

  // Applying commands

  function ApplyCommand(parse: Parser, backends: seq<UpfBackend>, c: Command): seq<UpfBackend> {
    match parse(c.addr)
    case None => backends
    case Some(addr) =>
      if c.action == "add" then Added(backends, addr)
      else if c.action == "remove" then Removed(backends, addr)
      else backends
  }

  function ApplyAll(parse: Parser, backends: seq<UpfBackend>, cs: seq<Command>): seq<UpfBackend> {
    if cs == [] then backends
    else ApplyCommand(parse, ApplyAll(parse, backends, cs[..|cs| - 1]), cs[|cs| - 1])
  }

  function ApplyLine(parse: Parser, backends: seq<UpfBackend>, line: string): seq<UpfBackend> {
    match SplitOnce(line)
    case None => backends
    case Some(c) => ApplyCommand(parse, backends, c)
  }

  function ApplyLines(parse: Parser, backends: seq<UpfBackend>, lines: seq<string>): seq<UpfBackend> {
    if lines == [] then backends
    else ApplyLine(parse, ApplyLines(parse, backends, lines[..|lines| - 1]), lines[|lines| - 1])
  }

  /** The lines left after skipping `n` of them. */
  function Skip(lines: seq<string>, n: nat): seq<string> {
    if n <= |lines| then lines[n..] else []
  }

  /**
   * One pass of the monitor: `size` is the size of the file when it was looked up, `contents` what was read
   * afterwards, if the file could be read.
   */
  method MonitorPass(parse: Parser, pool: UpfPool, lastSize: nat, size: nat, contents: Option<string>)
    returns (newLastSize: nat)
    requires pool.Valid()
    modifies pool`backends
    ensures pool.Valid()
    ensures newLastSize == if size > lastSize then size else lastSize
    ensures pool.backends
         == if size > lastSize && contents.Some?
            then ApplyLines(parse, old(pool.backends), Skip(Lines(contents.value), lastSize / 20))
            else old(pool.backends)
  {
    newLastSize := lastSize;
    if size > lastSize {
      if contents.Some? {
        var lines := Skip(Lines(contents.value), lastSize / 20);
        for i := 0 to |lines|
          invariant pool.Valid()
          invariant pool.backends == ApplyLines(parse, old(pool.backends), lines[..i])
        {
          assert lines[..i + 1][..i] == lines[..i];
          var command := SplitOnce(lines[i]);
          if command.Some? {
            var addr := parse(command.value.addr);
            if addr.Some? {
              if command.value.action == "add" {
                var _ := pool.AddBackend(addr.value);
              } else if command.value.action == "remove" {
                var _ := pool.RemoveBackend(addr.value);
              }
            }
          }
        }
        assert lines[..|lines|] == lines;
      }
      newLastSize := size;
    }
  }

  lemma WellFormedSplits(c: Command)
    requires WellFormed(c)
    ensures SplitOnce(LineOf(c)) == Some(c)
  {
    SplitLine(c);
  }

  lemma ApplyOneMore(parse: Parser, backends: seq<UpfBackend>, lines: seq<string>, line: string)
    ensures ApplyLines(parse, backends, lines + [line]) == ApplyLine(parse, ApplyLines(parse, backends, lines), line)
  {
    assert (lines + [line])[..|lines|] == lines;
  }

  lemma {:induction false} LinesApplyCommands(parse: Parser, backends: seq<UpfBackend>, cs: seq<Command>)
    requires forall c :: c in cs ==> WellFormed(c)
    ensures ApplyLines(parse, backends, LinesFor(cs)) == ApplyAll(parse, backends, cs)
  {
    if cs != [] {
      hide SplitOnce, ApplyCommand, WellFormed, LineOf;
      var front, last := cs[..|cs| - 1], cs[|cs| - 1];
      LinesApplyCommands(parse, backends, front);
      WellFormedSplits(last);
      assert LinesFor(cs) == LinesFor(front) + [LineOf(last)];
      ApplyOneMore(parse, backends, LinesFor(front), LineOf(last));
    }
  }

  // Membership: what a list of lines does to one address

  /** The address a line mentions, if it is a command with an address at all. */
  function Mentioned(parse: Parser, line: string): Option<SocketAddr> {
    match SplitOnce(line)
    case None => None
    case Some(c) => parse(c.addr)
  }

  predicate Adds(parse: Parser, line: string, addr: SocketAddr) {
    Mentioned(parse, line) == Some(addr) && SplitOnce(line).value.action == "add"
  }

  predicate Removes(parse: Parser, line: string, addr: SocketAddr) {
    Mentioned(parse, line) == Some(addr) && SplitOnce(line).value.action == "remove"
  }

  /** Whether `addr` is in after the lines if it was `before`: the last line that adds or removes it decides. */
  function Member(parse: Parser, lines: seq<string>, addr: SocketAddr, before: bool): bool {
    if lines == [] then before else
    var last := lines[|lines| - 1];
    Adds(parse, last, addr)
    || (!Removes(parse, last, addr) && Member(parse, lines[..|lines| - 1], addr, before))
  }

  lemma {:induction false} MemberOfConcat(parse: Parser, x: seq<string>, y: seq<string>, addr: SocketAddr, before: bool)
    ensures Member(parse, x + y, addr, before) == Member(parse, y, addr, Member(parse, x, addr, before))
  {
    hide Adds, Removes;
    if y == [] {
      assert x + y == x;
    } else {
      MemberOfConcat(parse, x, y[..|y| - 1], addr, before);
      assert (x + y)[..|x + y| - 1] == x + y[..|y| - 1];
    }
  }

  /** Replaying lines changes nothing: they either decide the membership or leave it alone. */
  lemma {:induction false} MemberIsIdempotent(parse: Parser, lines: seq<string>, addr: SocketAddr, before: bool)
    ensures Member(parse, lines, addr, Member(parse, lines, addr, before)) == Member(parse, lines, addr, before)
    ensures Member(parse, lines, addr, false) ==> Member(parse, lines, addr, true)
  {
    hide Adds, Removes;
    if lines != [] {
      MemberIsIdempotent(parse, lines[..|lines| - 1], addr, before);
    }
  }

  /** Replaying the tail from `from` on, with more lines after it, is the same as going on. */
  lemma ReplayedMember(parse: Parser, lines: seq<string>, from: nat, done: nat, upTo: nat, addr: SocketAddr,
                       before: bool)
    requires from <= done <= upTo <= |lines|
    ensures Member(parse, lines[from..upTo], addr, Member(parse, lines[..done], addr, before))
         == Member(parse, lines[..upTo], addr, before)
  {
    hide Member;
    var a, b, c := lines[..from], lines[from..done], lines[done..upTo];
    assert lines[from..upTo] == b + c && lines[..done] == a + b && lines[..upTo] == a + (b + c);
    var z := Member(parse, a, addr, before);
    MemberOfConcat(parse, a, b, addr, before);
    MemberOfConcat(parse, b, c, addr, Member(parse, b, addr, z));
    MemberOfConcat(parse, a, b + c, addr, before);
    MemberOfConcat(parse, b, c, addr, z);
    MemberIsIdempotent(parse, b, addr, z);
  }

  /** All the addresses the pool could ever hold: those it starts with and those mentioned by a line. */
  ghost predicate Covers(parse: Parser, universe: set<SocketAddr>, backends: seq<UpfBackend>, lines: seq<string>) {
    && (forall a :: a in AddrsOf(backends) ==> a in universe)
    && (forall line :: line in lines && Mentioned(parse, line).Some? ==> Mentioned(parse, line).value in universe)
  }

  lemma {:induction false} DistinctCount<T>(s: seq<T>, universe: set<T>)
    requires Distinct(s) && forall x :: x in s ==> x in universe
    ensures |s| <= |universe|
    ensures |s| == |universe| ==> forall x :: x in universe ==> x in s
  {
    if s == [] {
    } else {
      var front, last := s[..|s| - 1], s[|s| - 1];
      assert s == front + [last] && last in s;
      forall x | x in front
        ensures x in universe - {last}
      {
        var i :| 0 <= i < |front| && front[i] == x;
        assert s[i] == x && s[i] != s[|front|];
      }
      DistinctCount(front, universe - {last});
      assert |universe - {last}| == |universe| - 1;
      assert forall x :: x in universe ==> x == last || x in universe - {last};
    }
  }

  /** What one line makes of the pool's addresses. */
  lemma OneLine(parse: Parser, backends: seq<UpfBackend>, line: string, addr: SocketAddr)
    ensures var after := ApplyLine(parse, backends, line);
      && (addr in AddrsOf(after) ==> addr in AddrsOf(backends) || Adds(parse, line, addr))
      && (addr in AddrsOf(backends) && !Removes(parse, line, addr) ==> addr in AddrsOf(after))
      && (Removes(parse, line, addr) ==> addr !in AddrsOf(after))
      && (Adds(parse, line, addr) && |backends| < 64 ==> addr in AddrsOf(after))
      && (Distinct(AddrsOf(backends)) ==> Distinct(AddrsOf(after)))
  {
    if Mentioned(parse, line).Some? {
      var a := Mentioned(parse, line).value;
      AddedMembership(backends, a, addr);
      RemovedAddrs(backends, a);
    }
  }

  /** As long as at most 64 addresses are in play, every command takes effect and membership is what `Member` says. */
  lemma {:induction false} AppliedMembership(parse: Parser, universe: set<SocketAddr>, backends: seq<UpfBackend>,
                                            lines: seq<string>, addr: SocketAddr)
    requires Distinct(AddrsOf(backends)) && Covers(parse, universe, backends, lines) && |universe| <= 64
    ensures var after := ApplyLines(parse, backends, lines);
      && Distinct(AddrsOf(after))
      && Covers(parse, universe, after, lines)
      && (addr in AddrsOf(after) <==> Member(parse, lines, addr, addr in AddrsOf(backends)))
  {
    if lines != [] {
      hide ApplyLine, Mentioned, Adds, Removes;
      var front, last := lines[..|lines| - 1], lines[|lines| - 1];
      AppliedMembership(parse, universe, backends, front, addr);
      var before := ApplyLines(parse, backends, front);
      assert last in lines;
      DistinctCount(AddrsOf(before), universe);
      OneLine(parse, before, last, addr);
      assert |AddrsOf(before)| == |before|;
      AppliedIsCovered(parse, universe, before, last);
      if Adds(parse, last, addr) {
        AddedIsMentioned(parse, last, addr);
      }
    }
  }

  lemma AddedIsMentioned(parse: Parser, line: string, addr: SocketAddr)
    requires Adds(parse, line, addr)
    ensures Mentioned(parse, line) == Some(addr) && !Removes(parse, line, addr)
  {
  }

  lemma AppliedIsCovered(parse: Parser, universe: set<SocketAddr>, backends: seq<UpfBackend>, line: string)
    requires forall a :: a in AddrsOf(backends) ==> a in universe
    requires Mentioned(parse, line).Some? ==> Mentioned(parse, line).value in universe
    ensures forall a :: a in AddrsOf(ApplyLine(parse, backends, line)) ==> a in universe
  {
    forall a | a in AddrsOf(ApplyLine(parse, backends, line))
      ensures a in universe
    {
      OneLine(parse, backends, line, a);
    }
  }

  // Runs of the monitor over a growing file

  /**
   * `Append` is a line arriving at the end of the file; `Pass` is one pass of the monitor that saw the size of the
   * first `sized` lines and then read the first `read` lines, or failed to read.
   */
  datatype History =
    | Begin(backends: seq<UpfBackend>)
    | Append(before: History, line: string)
    | Pass(before: History, sized: nat, read: Option<nat>)

  /** The lines written to the file so far. */
  function Log(h: History): seq<string> {
    match h
    case Begin(_) => []
    case Append(before, line) => Log(before) + [line]
    case Pass(before, _, _) => Log(before)
  }

  /** The size in bytes of the first `n` lines, newlines included. */
  function SizeOf(log: seq<string>, n: nat): nat
    requires n <= |log|
  {
    Utf8Size(FileText(log[..n]))
  }

  /** How many lines the monitor has read so far. */
  function Consumed(h: History): nat {
    match h
    case Begin(_) => 0
    case Append(before, _) => Consumed(before)
    case Pass(before, _, read) => if Processes(h) && read.Some? then read.value else Consumed(before)
  }

  function LastSize(h: History): nat
    decreases h, 1
  {
    match h
    case Begin(_) => 0
    case Append(before, _) => LastSize(before)
    case Pass(before, _, _) => if Processes(h) then SizeSeen(h) else LastSize(before)
  }

  function SizeSeen(h: History): nat
    requires h.Pass?
  {
    if h.sized <= |Log(h.before)| then SizeOf(Log(h.before), h.sized) else 0
  }

  predicate Processes(h: History)
    requires h.Pass?
    decreases h, 0
  {
    SizeSeen(h) > LastSize(h.before)
  }

  /** The first line a pass does not skip. */
  function SkipOf(h: History): nat
    requires h.Pass?
  {
    LastSize(h.before) / BYTES_PER_LINE
  }

  function PoolAfter(parse: Parser, h: History): seq<UpfBackend> {
    match h
    case Begin(backends) => backends
    case Append(before, _) => PoolAfter(parse, before)
    case Pass(before, _, read) =>
      if Processes(h) && read.Some? && read.value <= |Log(before)|
      then ApplyLines(parse, PoolAfter(parse, before), Skip(Lines(FileText(Log(before)[..read.value])), SkipOf(h)))
      else PoolAfter(parse, before)
  }

  /** Whether some pass has applied the `i`-th line of the file. */
  predicate Applied(h: History, i: nat) {
    match h
    case Begin(_) => false
    case Append(before, _) => Applied(before, i)
    case Pass(before, _, read) =>
      Applied(before, i) || (Processes(h) && read.Some? && SkipOf(h) <= i < read.value)
  }

  /** The file only grows, in whole lines: a read sees at least what its size lookup and all earlier reads saw. */
  ghost predicate Legal(h: History) {
    match h
    case Begin(_) => true
    case Append(before, line) => Legal(before) && '\n' !in line
    case Pass(before, sized, read) =>
      && Legal(before)
      && sized <= |Log(before)|
      && (read.Some? ==> sized <= read.value <= |Log(before)| && Consumed(before) <= read.value)
  }

  /** No pass that read anything new skipped past the lines consumed before it. */
  ghost predicate NeverOverskips(h: History) {
    match h
    case Begin(_) => true
    case Append(before, _) => NeverOverskips(before)
    case Pass(before, _, read) =>
      && NeverOverskips(before)
      && (Processes(h) && read.Some? && read.value > Consumed(before) ==>
            LastSize(before) < 20 * (Consumed(before) + 1))
  }

  ghost predicate AllApplied(h: History) {
    forall i: nat :: i < Consumed(h) ==> Applied(h, i)
  }

  lemma {:induction false} AppliedAreConsumed(h: History)
    requires Legal(h)
    ensures forall i: nat :: Applied(h, i) ==> i < Consumed(h)
    ensures Consumed(h) <= |Log(h)|
  {
    hide SizeSeen;
    if !h.Begin? {
      AppliedAreConsumed(h.before);
    }
  }

  /** A line skipped once is skipped for good: the number of skipped lines never shrinks. */
  lemma {:induction false} OverskippedIsLost(h: History) returns (lost: nat)
    requires Legal(h) && !NeverOverskips(h)
    ensures lost < Consumed(h) && !Applied(h, lost) && lost < LastSize(h) / 20
  {
    if !NeverOverskips(h.before) {
      lost := OverskippedIsLost(h.before);
    } else {
      lost := Consumed(h.before);
      AppliedAreConsumed(h.before);
    }
  }

  lemma {:induction false} NothingIsLost(h: History)
    requires Legal(h) && NeverOverskips(h)
    ensures forall i: nat :: i < Consumed(h) ==> Applied(h, i)
  {
    if !h.Begin? {
      NothingIsLost(h.before);
      if h.Pass? && Processes(h) && h.read.Some? && h.read.value > Consumed(h.before) {
        assert SkipOf(h) <= Consumed(h.before);
        forall i: nat | i < h.read.value
          ensures Applied(h, i)
        {
          assert i < Consumed(h.before) ==> Applied(h.before, i);
        }
      }
    }
  }

  /**
   * The line skip is right exactly when the bytes seen before stay below twenty per line, counting one line more: every
   * line read so far has been applied by some pass if and only if, at every pass that found new lines after n lines
   * of L bytes, L < 20 * (n + 1). Otherwise some line is lost for good.
   */
  lemma {:induction false} AllAppliedExactlyWhenNeverOverskipping(h: History)
    requires Legal(h)
    ensures AllApplied(h) <==> NeverOverskips(h)
  {
    if NeverOverskips(h) {
      NothingIsLost(h);
    } else {
      var lost := OverskippedIsLost(h);
    }
  }

  /** The largest size of the file that a pass has looked up so far. */
  function LargestSizeSeen(h: History): nat {
    match h
    case Begin(_) => 0
    case Append(before, _) => LargestSizeSeen(before)
    case Pass(before, sized, _) =>
      if sized <= |Log(before)| && SizeOf(Log(before), sized) > LargestSizeSeen(before) then SizeOf(Log(before), sized)
      else LargestSizeSeen(before)
  }

  /** What the monitor remembers is the largest size it has looked up, whatever it read afterwards, if anything. */
  lemma {:induction false} LastSizeIsLargestSeen(h: History)
    ensures LastSize(h) == LargestSizeSeen(h)
  {
    hide SizeOf;
    if !h.Begin? {
      LastSizeIsLargestSeen(h.before);
    }
  }

  /** A pass that finds the file no larger than any pass before it reads nothing and forgets nothing. */
  lemma UnchangedFileIsNotReadAgain(parse: Parser, h: History, sized: nat, read: Option<nat>)
    requires sized <= |Log(h)| && SizeOf(Log(h), sized) <= LargestSizeSeen(h)
    ensures var again := Pass(h, sized, read);
      && PoolAfter(parse, again) == PoolAfter(parse, h)
      && Consumed(again) == Consumed(h) && LastSize(again) == LastSize(h)
      && forall i: nat :: Applied(again, i) <==> Applied(h, i)
  {
    hide SizeOf;
    LastSizeIsLargestSeen(h);
  }

  /** The monitor's loop over a history of the file; every pass gets the size and the text of its moment. */
  method Monitor(parse: Parser, pool: UpfPool, h: History) returns (lastSize: nat)
    requires pool.Valid() && pool.backends == Initial(h) && Legal(h)
    modifies pool`backends
    ensures pool.Valid()
    ensures pool.backends == PoolAfter(parse, h) && lastSize == LastSize(h)
    decreases h
  {
    match h
    case Begin(_) => lastSize := 0;
    case Append(before, _) => lastSize := Monitor(parse, pool, before);
    case Pass(before, sized, read) =>
      lastSize := Monitor(parse, pool, before);
      var contents := if read.Some? then Some(FileText(Log(before)[..read.value])) else None;
      lastSize := MonitorPass(parse, pool, lastSize, SizeOf(Log(before), sized), contents);
  }

  // What the applied lines mean for the pool

  function Initial(h: History): seq<UpfBackend> {
    match h
    case Begin(backends) => backends
    case Append(before, _) => Initial(before)
    case Pass(before, _, _) => Initial(before)
  }

  /** The lines of the file as the monitor reads them. */
  function ReadLines(h: History): (lines: seq<string>)
    ensures |lines| == |Log(h)|
  {
    ReadBack(Log(h))
  }

  /** The numbers of the lines the monitor has applied, in the order in which it did. */
  function Trace(h: History): seq<nat> {
    match h
    case Begin(_) => []
    case Append(before, _) => Trace(before)
    case Pass(before, _, read) =>
      Trace(before)
      + if Processes(h) && read.Some? && SkipOf(h) <= read.value then Numbers(SkipOf(h), read.value) else []
  }

  function Numbers(from: nat, upTo: nat): (ns: seq<nat>)
    requires from <= upTo
    ensures |ns| == upTo - from && forall k :: 0 <= k < |ns| ==> ns[k] == from + k
    ensures forall i: nat :: i in ns <==> from <= i < upTo
  {
    if from == upTo then [] else Numbers(from, upTo - 1) + [upTo - 1]
  }

  function Picked(lines: seq<string>, ns: seq<nat>): seq<string>
    requires forall i :: i in ns ==> i < |lines|
  {
    seq(|ns|, k requires 0 <= k < |ns| => assert ns[k] in ns; lines[ns[k]])
  }

  lemma {:induction false} LegalLogLines(h: History)
    requires Legal(h)
    ensures forall line :: line in Log(h) ==> '\n' !in line
  {
    if !h.Begin? {
      LegalLogLines(h.before);
    }
  }

  /** One pass applies exactly the lines from the skip to the end of what it read. */
  lemma PassAppliesTail(parse: Parser, h: History)
    requires Legal(h) && h.Pass? && Processes(h) && h.read.Some?
    ensures h.read.value <= |Log(h)|
    ensures PoolAfter(parse, h)
         == if SkipOf(h) <= h.read.value
            then ApplyLines(parse, PoolAfter(parse, h.before), ReadLines(h)[SkipOf(h)..h.read.value])
            else PoolAfter(parse, h.before)
  {
    hide Processes, SkipOf, Lines, FileText, Consumed;
    var log, n := Log(h), h.read.value;
    LegalLogLines(h);
    assert forall line :: line in log[..n] ==> line in log;
    LinesOfFile(log[..n]);
    assert ReadBack(log[..n]) == ReadBack(log)[..n];
  }

  lemma {:induction false} ApplyConcat(parse: Parser, backends: seq<UpfBackend>, x: seq<string>, y: seq<string>)
    ensures ApplyLines(parse, backends, x + y) == ApplyLines(parse, ApplyLines(parse, backends, x), y)
  {
    hide ApplyLine;
    if y == [] {
      assert x + y == x;
    } else {
      ApplyConcat(parse, backends, x, y[..|y| - 1]);
      assert (x + y)[..|x + y| - 1] == x + y[..|y| - 1];
    }
  }

  lemma PickedGrows(lines: seq<string>, more: seq<string>, ns: seq<nat>)
    requires |lines| <= |more| && more[..|lines|] == lines
    requires forall i :: i in ns ==> i < |lines|
    ensures Picked(more, ns) == Picked(lines, ns)
  {
    forall k | 0 <= k < |ns|
      ensures Picked(more, ns)[k] == Picked(lines, ns)[k]
    {
      assert ns[k] in ns && more[ns[k]] == more[..|lines|][ns[k]];
    }
  }

  lemma {:induction false} TraceIsApplied(h: History)
    requires Legal(h)
    ensures forall i: nat :: i in Trace(h) <==> Applied(h, i)
    ensures forall i :: i in Trace(h) ==> i < |ReadLines(h)|
  {
    hide Processes, SkipOf, Consumed;
    AppliedAreConsumed(h);
    if !h.Begin? {
      TraceIsApplied(h.before);
    }
  }

  lemma PickedNumbers(lines: seq<string>, from: nat, upTo: nat)
    requires from <= upTo <= |lines|
    ensures Picked(lines, Numbers(from, upTo)) == lines[from..upTo]
  {
    var picked := Picked(lines, Numbers(from, upTo));
    assert forall k :: 0 <= k < |picked| ==> picked[k] == lines[from..upTo][k];
  }

  lemma PickedConcat(lines: seq<string>, x: seq<nat>, y: seq<nat>)
    requires forall i :: i in x ==> i < |lines|
    requires forall i :: i in y ==> i < |lines|
    ensures forall i :: i in x + y ==> i < |lines|
    ensures Picked(lines, x + y) == Picked(lines, x) + Picked(lines, y)
  {
  }

  /**
   * The pool is what the applied lines make of the initial one, applied in the order of `Trace`; and those are the
   * lines `Applied` speaks of.
   */
  lemma {:induction false} PoolIsTraceApplied(parse: Parser, h: History)
    requires Legal(h)
    ensures forall i: nat :: i in Trace(h) <==> Applied(h, i)
    ensures forall i :: i in Trace(h) ==> i < |ReadLines(h)|
    ensures PoolAfter(parse, h) == ApplyLines(parse, Initial(h), Picked(ReadLines(h), Trace(h)))
  {
    TraceIsApplied(h);
    if h.Begin? {
      assert Picked(ReadLines(h), Trace(h)) == [];
    } else {
      hide Applied, Legal;
      PoolIsTraceApplied(parse, h.before);
      ReadLinesGrow(h);
      PickedGrows(ReadLines(h.before), ReadLines(h), Trace(h.before));
      StepExtendsTrace(parse, h);
    }
  }

  lemma StepExtendsTrace(parse: Parser, h: History)
    requires Legal(h) && !h.Begin?
    requires forall i :: i in Trace(h) ==> i < |ReadLines(h)|
    requires forall i :: i in Trace(h.before) ==> i < |ReadLines(h)|
    requires PoolAfter(parse, h.before) == ApplyLines(parse, Initial(h), Picked(ReadLines(h), Trace(h.before)))
    ensures PoolAfter(parse, h) == ApplyLines(parse, Initial(h), Picked(ReadLines(h), Trace(h)))
  {
    hide Processes, SkipOf, Lines, FileText, Consumed, ApplyLines, ReadLines, Picked, Numbers, Legal;
    if h.Pass? && Processes(h) && h.read.Some? && SkipOf(h) <= h.read.value {
      PassAppliesTail(parse, h);
      var lines, ns := ReadLines(h), Numbers(SkipOf(h), h.read.value);
      PickedNumbers(lines, SkipOf(h), h.read.value);
      PickedConcat(lines, Trace(h.before), ns);
      ApplyConcat(parse, Initial(h), Picked(lines, Trace(h.before)), Picked(lines, ns));
    } else {
      assert Trace(h) == Trace(h.before);
      if h.Pass? && Processes(h) && h.read.Some? {
        PassAppliesTail(parse, h);
      }
    }
  }

  lemma ReadLinesGrow(h: History)
    requires !h.Begin?
    ensures |ReadLines(h.before)| <= |ReadLines(h)|
    ensures ReadLines(h)[..|ReadLines(h.before)|] == ReadLines(h.before)
  {
  }

  /** What one pass that skips no unread line makes of a pool that already has the first lines applied. */
  lemma PassReplays(parse: Parser, universe: set<SocketAddr>, h: History, initial: bool, addr: SocketAddr)
    requires Legal(h) && h.Pass? && Processes(h) && h.read.Some?
    requires SkipOf(h) <= Consumed(h.before) || h.read.value == Consumed(h.before)
    requires Consumed(h.before) <= |Log(h)|
    requires var pool := PoolAfter(parse, h.before);
      && Distinct(AddrsOf(pool)) && Covers(parse, universe, pool, ReadLines(h)) && |universe| <= 64
      && (addr in AddrsOf(pool) <==> Member(parse, ReadLines(h)[..Consumed(h.before)], addr, initial))
    ensures var pool := PoolAfter(parse, h);
      && Consumed(h) <= |Log(h)|
      && Distinct(AddrsOf(pool)) && Covers(parse, universe, pool, ReadLines(h))
      && (addr in AddrsOf(pool) <==> Member(parse, ReadLines(h)[..Consumed(h)], addr, initial))
  {
    PassAppliesTail(parse, h);
    var lines, n, pool := ReadLines(h), h.read.value, PoolAfter(parse, h.before);
    var from := SkipOf(h);
    assert Consumed(h) == n && Consumed(h.before) <= n;
    hide Processes, SkipOf, PoolAfter, Member, Mentioned, ReadLines;
    if from <= n {
      AppliedMembership(parse, universe, pool, lines[from..n], addr);
      ReplayedMember(parse, lines, from, Consumed(h.before), n, addr, initial);
    }
  }

  /**
   * Replay is harmless: as long as no pass skips unread lines and at most 64 distinct addresses are ever in play, the
   * addresses in the pool are, after every pass, those that applying each line read so far exactly once and in order
   * would give, however many of them were applied again. The lines may be anything at all.
   */
  lemma {:induction false} PoolIsExactlyOnce(parse: Parser, universe: set<SocketAddr>, h: History, addr: SocketAddr)
    requires Legal(h) && NeverOverskips(h)
    requires Distinct(AddrsOf(Initial(h)))
    requires Covers(parse, universe, Initial(h), ReadLines(h)) && |universe| <= 64
    ensures var pool := PoolAfter(parse, h);
      && Distinct(AddrsOf(pool)) && Covers(parse, universe, pool, ReadLines(h))
      && Consumed(h) <= |Log(h)|
      && (addr in AddrsOf(pool) <==> addr in AddrsOf(ApplyLines(parse, Initial(h), ReadLines(h)[..Consumed(h)])))
  {
    PoolMembership(parse, universe, h, addr);
    AppliedAreConsumed(h);
    AppliedMembership(parse, universe, Initial(h), ReadLines(h)[..Consumed(h)], addr);
  }

  lemma {:induction false} PoolMembership(parse: Parser, universe: set<SocketAddr>, h: History, addr: SocketAddr)
    requires Legal(h) && NeverOverskips(h)
    requires Distinct(AddrsOf(Initial(h)))
    requires Covers(parse, universe, Initial(h), ReadLines(h)) && |universe| <= 64
    ensures var pool := PoolAfter(parse, h);
      && Distinct(AddrsOf(pool)) && Covers(parse, universe, pool, ReadLines(h))
      && Consumed(h) <= |Log(h)|
      && (addr in AddrsOf(pool)
          <==> Member(parse, ReadLines(h)[..Consumed(h)], addr, addr in AddrsOf(Initial(h))))
  {
    AppliedAreConsumed(h);
    if !h.Begin? {
      AppliedAreConsumed(h.before);
      ReadLinesGrow(h);
      var lines, fewer := ReadLines(h), ReadLines(h.before);
      assert fewer[..Consumed(h.before)] == lines[..Consumed(h.before)];
      assert forall line :: line in fewer ==> line in lines;
      PoolMembership(parse, universe, h.before, addr);
      if h.Pass? && Processes(h) && h.read.Some? {
        PassReplays(parse, universe, h, addr in AddrsOf(Initial(h)), addr);
      }
    }
  }

  // The promise broken: a burst of commands can lose the next one

  ghost predicate Extends(h: History, later: History) {
    later == h || (!later.Begin? && Extends(h, later.before))
  }

  /** A line that lies before the skip and was not applied yet is never applied, however the run goes on. */
  lemma {:induction false} SkippedOnceIsLostForever(h: History, later: History, i: nat)
    requires Extends(h, later) && !Applied(h, i) && i < LastSize(h) / 20
    ensures !Applied(later, i) && LastSize(later) >= LastSize(h)
  {
    if later != h {
      SkippedOnceIsLostForever(h, later.before, i);
    }
  }

  lemma {:induction false} NobodyAdds(parse: Parser, backends: seq<UpfBackend>, lines: seq<string>, addr: SocketAddr)
    requires addr !in AddrsOf(backends) && forall line :: line in lines ==> !Adds(parse, line, addr)
    ensures addr !in AddrsOf(ApplyLines(parse, backends, lines))
  {
    hide Adds, ApplyLine;
    if lines != [] {
      var front, last := lines[..|lines| - 1], lines[|lines| - 1];
      assert last in lines;
      NobodyAdds(parse, backends, front, addr);
      OneLine(parse, ApplyLines(parse, backends, front), last, addr);
    }
  }

  lemma {:induction false} NobodyRemoves(parse: Parser, backends: seq<UpfBackend>, lines: seq<string>, addr: SocketAddr)
    requires addr in AddrsOf(backends) && forall line :: line in lines ==> !Removes(parse, line, addr)
    ensures addr in AddrsOf(ApplyLines(parse, backends, lines))
  {
    hide Removes, ApplyLine;
    if lines != [] {
      var front, last := lines[..|lines| - 1], lines[|lines| - 1];
      assert last in lines;
      NobodyRemoves(parse, backends, front, addr);
      OneLine(parse, ApplyLines(parse, backends, front), last, addr);
    }
  }

  /** An address gets into the pool only through a line that was applied. */
  lemma PoolMembersWereApplied(parse: Parser, h: History, addr: SocketAddr)
    requires Legal(h) && addr in AddrsOf(PoolAfter(parse, h)) && addr !in AddrsOf(Initial(h))
    ensures exists i: nat :: i < |ReadLines(h)| && Applied(h, i) && Adds(parse, ReadLines(h)[i], addr)
  {
    PoolIsTraceApplied(parse, h);
    var picked := Picked(ReadLines(h), Trace(h));
    hide Adds, Applied, PoolAfter, ApplyLines;
    if forall line :: line in picked ==> !Adds(parse, line, addr) {
      NobodyAdds(parse, Initial(h), picked, addr);
    } else {
      var line :| line in picked && Adds(parse, line, addr);
      var k :| 0 <= k < |picked| && picked[k] == line;
      assert Trace(h)[k] in Trace(h);
    }
  }

  /**
   * What the loss of a line means for the pool: when a line that adds an address was skipped and no other line adds
   * it, that address is never in the pool, however the run goes on.
   */
  lemma LostAdditionNeverReachesThePool(parse: Parser, h: History, later: History, i: nat, addr: SocketAddr)
    requires Legal(later) && Extends(h, later) && !Applied(h, i) && i < LastSize(h) / 20
    requires addr !in AddrsOf(Initial(later))
    requires forall j: nat :: j < |ReadLines(later)| && j != i ==> !Adds(parse, ReadLines(later)[j], addr)
    ensures addr !in AddrsOf(PoolAfter(parse, later))
  {
    SkippedOnceIsLostForever(h, later, i);
    if addr in AddrsOf(PoolAfter(parse, later)) {
      PoolMembersWereApplied(parse, later, addr);
    }
  }

  function Appended(h: History, line: string, n: nat): History {
    if n == 0 then h else Append(Appended(h, line, n - 1), line)
  }

  lemma {:induction false} SizeOfConcat(x: string, y: string)
    ensures Utf8Size(x + y) == Utf8Size(x) + Utf8Size(y)
  {
    if y == "" {
      assert x + y == x;
    } else {
      SizeOfConcat(x, y[..|y| - 1]);
      assert (x + y)[..|x + y| - 1] == x + y[..|y| - 1];
    }
  }

  lemma {:induction false} SizeOfAscii(s: string)
    requires forall i :: 0 <= i < |s| ==> s[i] as int < 0x80
    ensures Utf8Size(s) == |s|
  {
    if s != "" {
      SizeOfAscii(s[..|s| - 1]);
    }
  }

  /** Each line takes its own bytes and one for the newline. */
  lemma SizeOfNext(log: seq<string>, n: nat)
    requires n < |log|
    ensures SizeOf(log, n + 1) == SizeOf(log, n) + Utf8Size(log[n]) + 1
  {
    assert log[..n + 1] == log[..n] + [log[n]];
    FileTextAppend(log[..n], log[n]);
    SizeOfConcat(FileText(log[..n]) + log[n], "\n");
    SizeOfConcat(FileText(log[..n]), log[n]);
    SizeOfAscii("\n");
  }

  lemma {:induction false} AppendedLog(backends: seq<UpfBackend>, line: string, n: nat)
    requires '\n' !in line
    ensures var h := Appended(Begin(backends), line, n);
      && |Log(h)| == n && SizeOf(Log(h), n) == n * (Utf8Size(line) + 1)
      && (forall i :: 0 <= i < n ==> Log(h)[i] == line)
      && Consumed(h) == 0 && LastSize(h) == 0 && Legal(h) && NeverOverskips(h) && Initial(h) == backends
      && forall i: nat :: !Applied(h, i)
  {
    if n > 0 {
      AppendedLog(backends, line, n - 1);
      var h, before := Appended(Begin(backends), line, n), Appended(Begin(backends), line, n - 1);
      SizeOfNext(Log(h), n - 1);
      assert Log(h)[..n - 1] == Log(before)[..n - 1];
      var size := Utf8Size(line) + 1;
      assert n * size == (n - 1) * size + size;
    }
  }

  /** A removal as the terminal UI writes it. */
  function Removal(): string {
    "remove:127.0.0.1:8806"
  }

  /** Ten removals of one address, all read in one pass. */
  function TenRemovals(backends: seq<UpfBackend>): History {
    Pass(Appended(Begin(backends), Removal(), 10), 10, Some(10))
  }

  lemma TenRemovalsSkipEleven(backends: seq<UpfBackend>)
    ensures var h := TenRemovals(backends);
      && Legal(h) && LastSize(h) == 220 && !Applied(h, 10)
      && |Log(h)| == 10 && (forall i :: 0 <= i < 10 ==> Log(h)[i] == Removal())
      && Initial(h) == backends
  {
    SizeOfAscii(Removal());
    AppendedLog(backends, Removal(), 10);
    assert SizeSeen(TenRemovals(backends)) == 220;
  }

  /**
   * Ten removals of an address such as 127.0.0.1:8806, 22 bytes each and seen in one pass, make every later pass skip
   * eleven lines: the eleventh line of the file is never applied, whatever it is and however the run goes on.
   */
  lemma TenRemovalsLoseTheNext(backends: seq<UpfBackend>, later: History)
    requires Extends(TenRemovals(backends), later)
    ensures !Applied(later, 10)
    ensures Legal(TenRemovals(backends))
  {
    TenRemovalsSkipEleven(backends);
    SkippedOnceIsLostForever(TenRemovals(backends), later, 10);
  }

  lemma {:induction false} ExtendedLog(h: History, later: History)
    requires Extends(h, later)
    ensures |Log(h)| <= |Log(later)| && Log(later)[..|Log(h)|] == Log(h) && Initial(later) == Initial(h)
  {
    if later != h {
      ExtendedLog(h, later.before);
      assert Log(later)[..|Log(later.before)|] == Log(later.before);
    }
  }

  lemma AfterTenRemovals(backends: seq<UpfBackend>, line: string, later: History)
    requires Extends(Append(TenRemovals(backends), line), later)
    ensures |ReadLines(later)| > 10 && ReadLines(later)[10] == WithoutTrailingCr(line)
    ensures forall i :: 0 <= i < 10 ==> ReadLines(later)[i] == WithoutTrailingCr(Removal())
    ensures Initial(later) == backends
  {
    hide Removal, WithoutTrailingCr, SizeOf, LastSize;
    var h := Append(TenRemovals(backends), line);
    TenRemovalsSkipEleven(backends);
    ExtendedLog(h, later);
    assert forall i :: 0 <= i < |Log(h)| ==> Log(later)[i] == Log(later)[..|Log(h)|][i];
  }

  /**
   * The same input at the pool: an addition written right after the ten removals never gets its address into the pool,
   * although applying every line once would have put it there, for good if nothing removes it.
   */
  lemma AdditionAfterTenRemovalsIsLost(parse: Parser, backends: seq<UpfBackend>, line: string, later: History,
                                       addr: SocketAddr)
    requires Extends(Append(TenRemovals(backends), line), later) && Legal(later)
    requires Adds(parse, WithoutTrailingCr(line), addr) && addr !in AddrsOf(backends) && |backends| < 64
    requires forall i :: 10 < i < |ReadLines(later)| ==>
      !Adds(parse, ReadLines(later)[i], addr) && !Removes(parse, ReadLines(later)[i], addr)
    ensures addr !in AddrsOf(PoolAfter(parse, later))
    ensures addr in AddrsOf(ApplyLines(parse, backends, ReadLines(later)))
  {
    RemovalAddsNothing(parse);
    AfterTenRemovals(backends, line, later);
    TenRemovalsSkipEleven(backends);
    ExtendsPast(TenRemovals(backends), line, later);
    var lines := ReadLines(later);
    hide Removal, WithoutTrailingCr, ApplyLines, PoolAfter, ReadLines, LastSize, Applied, TenRemovals, Legal, Extends;
    hide Mentioned;
    LostAdditionNeverReachesThePool(parse, TenRemovals(backends), later, 10, addr);
    AddedOnceStays(parse, backends, lines, 10, addr);
  }

  lemma {:induction false} ExtendsPast(h: History, line: string, later: History)
    requires Extends(Append(h, line), later)
    ensures Extends(h, later)
  {
    if later != Append(h, line) {
      ExtendsPast(h, line, later.before);
    }
  }

  /** A line that is not an addition. */
  predicate AddsNothing(parse: Parser, line: string) {
    Mentioned(parse, line).Some? ==> SplitOnce(line).value.action != "add"
  }

  lemma RemovalAddsNothing(parse: Parser)
    ensures WithoutTrailingCr(Removal()) == Removal() && AddsNothing(parse, Removal())
  {
    hide SplitOnce;
    var c := Command("remove", "127.0.0.1:8806");
    SplitLine(c);
    LineKeepsItsEnd(c);
    assert LineOf(c) == Removal();
  }

  /** The first addition in a file puts its address in for good if there is room for it and nothing removes it. */
  lemma AddedOnceStays(parse: Parser, backends: seq<UpfBackend>, lines: seq<string>, i: nat, addr: SocketAddr)
    requires i < |lines| && Adds(parse, lines[i], addr) && |backends| < 64
    requires forall j :: 0 <= j < i ==> AddsNothing(parse, lines[j])
    requires forall j :: i < j < |lines| ==> !Removes(parse, lines[j], addr)
    ensures addr in AddrsOf(ApplyLines(parse, backends, lines))
  {
    hide Adds, Removes, ApplyLine, AddsNothing, ApplyLines, AddrsOf;
    var before, after := lines[..i], lines[i + 1..];
    assert lines == before + [lines[i]] + after;
    NothingAddedNothingGrows(parse, backends, before);
    OneLine(parse, ApplyLines(parse, backends, before), lines[i], addr);
    ApplyOneMore(parse, backends, before, lines[i]);
    assert forall line :: line in after ==> !Removes(parse, line, addr);
    NobodyRemoves(parse, ApplyLines(parse, backends, before + [lines[i]]), after, addr);
    ApplyConcat(parse, backends, before + [lines[i]], after);
  }

  lemma {:induction false} NothingAddedNothingGrows(parse: Parser, backends: seq<UpfBackend>, lines: seq<string>)
    requires forall j :: 0 <= j < |lines| ==> AddsNothing(parse, lines[j])
    ensures |ApplyLines(parse, backends, lines)| <= |backends|
  {
    if lines != [] {
      var front, last := lines[..|lines| - 1], lines[|lines| - 1];
      NothingAddedNothingGrows(parse, backends, front);
      if Mentioned(parse, last).Some? {
        RemovedAddrs(ApplyLines(parse, backends, front), Mentioned(parse, last).value);
      }
    }
  }

  /**
   * One removal fewer is harmless: after nine such removals seen in one pass, 198 bytes, the next pass skips exactly
   * those nine lines, and an addition written after them gets its address into the pool if there is room.
   */
  lemma NineRemovalsLoseNothing(parse: Parser, backends: seq<UpfBackend>, line: string, addr: SocketAddr)
    requires '\n' !in line && Adds(parse, WithoutTrailingCr(line), addr) && |backends| < 64
    ensures var h := Pass(Append(Pass(Appended(Begin(backends), Removal(), 9), 9, Some(9)), line), 10, Some(10));
      Legal(h) && AllApplied(h) && Consumed(h) == 10 && addr in AddrsOf(PoolAfter(parse, h))
  {
    hide Adds, WithoutTrailingCr, Removal, SizeOf, AddsNothing;
    var nine := Appended(Begin(backends), Removal(), 9);
    var first := Pass(nine, 9, Some(9));
    var written := Append(first, line);
    var h := Pass(written, 10, Some(10));
    NineRemovalsSkipNine(backends);
    SizeOfNext(Log(written), 9);
    SizeOfTakeOf(Log(written), Log(nine), 9);
    assert SizeSeen(h) > 198 && Processes(h) && SkipOf(h) == 9;
    AllAppliedExactlyWhenNeverOverskipping(h);
    PassAppliesTail(parse, h);
    assert ReadLines(h)[9..10] == [WithoutTrailingCr(line)];
    FirstNineAddNothing(parse, backends);
    ApplyOneMore(parse, PoolAfter(parse, first), [], WithoutTrailingCr(line));
    OneLine(parse, PoolAfter(parse, first), WithoutTrailingCr(line), addr);
  }

  lemma SizeOfTakeOf(log: seq<string>, short: seq<string>, n: nat)
    requires n <= |log| && n <= |short| && log[..n] == short[..n]
    ensures SizeOf(log, n) == SizeOf(short, n)
  {
  }

  lemma NineRemovalsSkipNine(backends: seq<UpfBackend>)
    ensures var nine := Appended(Begin(backends), Removal(), 9);
      var first := Pass(nine, 9, Some(9));
      && Legal(first) && NeverOverskips(first) && |Log(first)| == 9 && SizeOf(Log(first), 9) == 198
      && LastSize(first) == 198 && Consumed(first) == 9
      && (forall i :: 0 <= i < 9 ==> Log(first)[i] == Removal())
  {
    SizeOfAscii(Removal());
    hide Removal;
    AppendedLog(backends, Removal(), 9);
    assert SizeSeen(Pass(Appended(Begin(backends), Removal(), 9), 9, Some(9))) == 198;
  }

  lemma FirstNineAddNothing(parse: Parser, backends: seq<UpfBackend>)
    ensures |PoolAfter(parse, Pass(Appended(Begin(backends), Removal(), 9), 9, Some(9)))| <= |backends|
  {
    var nine := Appended(Begin(backends), Removal(), 9);
    var first := Pass(nine, 9, Some(9));
    RemovalAddsNothing(parse);
    hide Removal, SizeOf, AddsNothing, PoolAfter;
    NineRemovalsSkipNine(backends);
    AppendedLog(backends, Removal(), 9);
    assert forall j :: 0 <= j < |ReadLines(first)| ==> ReadLines(first)[j] == WithoutTrailingCr(Log(first)[j]);
    WithoutAdditionsPoolNeverGrows(parse, first);
  }

  lemma WithoutAdditionsPoolNeverGrows(parse: Parser, h: History)
    requires Legal(h) && forall j :: 0 <= j < |ReadLines(h)| ==> AddsNothing(parse, ReadLines(h)[j])
    ensures |PoolAfter(parse, h)| <= |Initial(h)|
  {
    hide PoolAfter, AddsNothing, ApplyLines, ReadLines, Legal, Applied, Trace;
    PoolIsTraceApplied(parse, h);
    var picked := Picked(ReadLines(h), Trace(h));
    forall k | 0 <= k < |picked|
      ensures AddsNothing(parse, picked[k])
    {
      assert Trace(h)[k] in Trace(h);
    }
    NothingAddedNothingGrows(parse, Initial(h), picked);
  }

  // The writer's side: which files are safe to write

  /** Every pass that looked at a file that had grown could read it. */
  ghost predicate ReadsSucceed(h: History) {
    match h
    case Begin(_) => true
    case Append(before, _) => ReadsSucceed(before)
    case Pass(before, _, read) => ReadsSucceed(before) && read.Some?
  }

  /** However the lines arrive and whenever the monitor looks, it applies all that it reads. */
  ghost predicate SafeToWrite(log: seq<string>) {
    forall h: History :: Legal(h) && ReadsSucceed(h) && Log(h) == log ==> AllApplied(h)
  }

  /** No proper prefix of the file is as long as twenty bytes a line, counting one line more. */
  ghost predicate StaysBelowSkip(log: seq<string>) {
    forall n: nat :: n < |log| ==> SizeOf(log, n) < 20 * (n + 1)
  }

  lemma {:induction false} SizeGrows(log: seq<string>, m: nat, n: nat)
    requires m <= n <= |log|
    ensures SizeOf(log, m) + (n - m) <= SizeOf(log, n)
  {
    hide SizeOf;
    if m < n {
      SizeGrows(log, m, n - 1);
      SizeOfNext(log, n - 1);
    }
  }

  /** While reads succeed, the remembered size is at most that of the lines read. */
  lemma {:induction false} LastSizeIsRead(h: History)
    requires Legal(h) && ReadsSucceed(h)
    ensures Consumed(h) <= |Log(h)|
    ensures LastSize(h) <= SizeOf(Log(h), Consumed(h))
  {
    hide SizeOf;
    if !h.Begin? {
      LastSizeIsRead(h.before);
      SizeOfPrefix(h, Consumed(h.before));
      if h.Pass? && Processes(h) {
        SizeGrows(Log(h), h.sized, h.read.value);
      }
    }
  }

  lemma SizeOfPrefix(h: History, n: nat)
    requires !h.Begin? && n <= |Log(h.before)|
    ensures n <= |Log(h)| && SizeOf(Log(h), n) == SizeOf(Log(h.before), n)
  {
    assert Log(h)[..n] == Log(h.before)[..n];
  }

  lemma SizeOfTake(log: seq<string>, n: nat)
    requires n <= |log|
    ensures SizeOf(log[..n], n) == SizeOf(log, n)
  {
    assert log[..n][..n] == log[..n];
  }

  lemma {:induction false} BelowSkipNeverOverskips(h: History)
    requires Legal(h) && ReadsSucceed(h) && StaysBelowSkip(Log(h))
    ensures NeverOverskips(h)
  {
    hide SizeOf;
    if !h.Begin? {
      forall n: nat | n < |Log(h.before)|
        ensures SizeOf(Log(h.before), n) < 20 * (n + 1)
      {
        SizeOfPrefix(h, n);
      }
      BelowSkipNeverOverskips(h.before);
      LastSizeIsRead(h.before);
    }
  }

  function AppendedAll(h: History, lines: seq<string>): History {
    if lines == [] then h else Append(AppendedAll(h, lines[..|lines| - 1]), lines[|lines| - 1])
  }

  lemma {:induction false} AppendedAllLog(h: History, lines: seq<string>)
    requires Legal(h) && ReadsSucceed(h) && forall line :: line in lines ==> '\n' !in line
    ensures var end := AppendedAll(h, lines);
      && Log(end) == Log(h) + lines && Legal(end) && ReadsSucceed(end)
      && Consumed(end) == Consumed(h) && LastSize(end) == LastSize(h)
      && forall i: nat :: Applied(end, i) <==> Applied(h, i)
  {
    if lines != [] {
      assert lines[|lines| - 1] in lines;
      assert forall line :: line in lines[..|lines| - 1] ==> line in lines;
      AppendedAllLog(h, lines[..|lines| - 1]);
    }
  }

  /** A monitor that reads the first `n` lines the moment they are written. */
  lemma OnePass(log: seq<string>, n: nat) returns (h: History)
    requires n <= |log| && SizeOf(log, n) > 0
    requires forall line :: line in log ==> '\n' !in line
    ensures Legal(h) && ReadsSucceed(h) && Log(h) == log[..n]
    ensures Consumed(h) == n && LastSize(h) == SizeOf(log, n) && !Applied(h, n)
  {
    hide SizeOf;
    assert forall line :: line in log[..n] ==> line in log;
    AppendedAllLog(Begin([]), log[..n]);
    h := Pass(AppendedAll(Begin([]), log[..n]), n, Some(n));
    assert [] + log[..n] == log[..n];
    SizeOfTake(log, n);
  }

  /** Two passes, one after the first `n` lines and one at the end, lose line `n` of a file that is too long there. */
  lemma TwoPassesLoseALine(log: seq<string>, n: nat) returns (h: History)
    requires n < |log| && SizeOf(log, n) >= 20 * (n + 1)
    requires forall line :: line in log ==> '\n' !in line
    ensures Legal(h) && ReadsSucceed(h) && Log(h) == log && n < Consumed(h) && !Applied(h, n)
  {
    hide SizeOf, LastSize;
    var seen := OnePass(log, n);
    assert forall line :: line in log[n..] ==> line in log;
    AppendedAllLog(seen, log[n..]);
    var all := AppendedAll(seen, log[n..]);
    assert log[..n] + log[n..] == log;
    h := Pass(all, |log|, Some(|log|));
    SizeGrows(log, n, |log|);
    assert SizeSeen(h) > LastSize(all) && SkipOf(h) > n;
  }

  /**
   * Which files the monitor handles: as long as reads succeed, it applies every line it reads of a file, however the
   * lines arrive and whenever it looks, if and only if before each line but the first the file is shorter than twenty
   * bytes for each line written so far and twenty more.
   */
  lemma SafeExactlyWhenBelowSkip(log: seq<string>)
    requires forall line :: line in log ==> '\n' !in line
    ensures SafeToWrite(log) <==> StaysBelowSkip(log)
  {
    if StaysBelowSkip(log) {
      forall h: History | Legal(h) && ReadsSucceed(h) && Log(h) == log
        ensures AllApplied(h)
      {
        BelowSkipNeverOverskips(h);
        AllAppliedExactlyWhenNeverOverskipping(h);
      }
    } else {
      var n: nat :| n < |log| && SizeOf(log, n) >= 20 * (n + 1);
      var h := TwoPassesLoseALine(log, n);
      assert !AllApplied(h);
    }
  }

  /** Files whose lines take at most twenty bytes each, newlines included, are always handled. */
  lemma ShortLinesAreSafe(log: seq<string>)
    requires forall line :: line in log ==> '\n' !in line && Utf8Size(line) + 1 <= 20
    ensures SafeToWrite(log)
  {
    forall n: nat | n < |log|
      ensures SizeOf(log, n) < 20 * (n + 1)
    {
      ShortLinesStayShort(log, n);
    }
    SafeExactlyWhenBelowSkip(log);
  }

  lemma {:induction false} ShortLinesStayShort(log: seq<string>, n: nat)
    requires n <= |log| && forall line :: line in log ==> Utf8Size(line) + 1 <= 20
    ensures SizeOf(log, n) <= 20 * n
  {
    if n > 0 {
      ShortLinesStayShort(log, n - 1);
      SizeOfNext(log, n - 1);
    } else {
      assert log[..0] == [];
    }
  }
}
