/** The UPFs tab of the terminal UI: the writer of the command file. */
module Tui {
  import opened Types
  import opened Pool
  import opened CommandLog
  import opened Control

  /** The keys the tab reacts to. */
  datatype Key = Char(c: char) | Backspace | Enter | Esc | Up | Down

  datatype Ui = Ui(upfs: seq<string>, selected: nat, input: string, inputMode: bool)

  predicate CanAdd(ui: Ui) {
    ui.inputMode && ui.input != "" && |ui.upfs| < MAX_BACKENDS && ui.input !in ui.upfs
  }

  predicate CanDelete(ui: Ui) {
    !ui.inputMode && ui.selected < |ui.upfs|
  }

  function Without<T>(s: seq<T>, i: nat): seq<T>
    requires i < |s|
  {
    s[..i] + s[i + 1..]
  }

  function Press(ui: Ui, key: Key): Ui {
    if ui.inputMode then
      match key
      case Char(c) => ui.(input := ui.input + [c])
      case Backspace => ui.(input := if ui.input == "" then "" else ui.input[..|ui.input| - 1])
      case Enter => if CanAdd(ui) then Ui(ui.upfs + [ui.input], ui.selected, "", false) else ui
      case Esc => ui.(input := "", inputMode := false)
      case _ => ui
    else
      match key
      case Char(c) =>
        if c == 'a' then ui.(inputMode := true, input := "")
        else if c == 'd' && CanDelete(ui) then
          var rest := Without(ui.upfs, ui.selected);
          ui.(upfs := rest,
              selected := if ui.selected >= |rest| && ui.selected > 0 then ui.selected - 1 else ui.selected)
        else ui
      case Up => ui.(selected := if ui.selected == 0 then 0 else ui.selected - 1)
      case Down =>
        if ui.upfs == [] then ui
        else ui.(selected := if ui.selected + 1 < |ui.upfs| - 1 then ui.selected + 1 else |ui.upfs| - 1)
      case _ => ui
  }

  /** The command a key makes the UI append to the file, if any. */
  function Issued(ui: Ui, key: Key): seq<Command> {
    if key == Enter && CanAdd(ui) then [Command("add", ui.input)]
    else if key == Char('d') && CanDelete(ui) then [Command("remove", ui.upfs[ui.selected])]
    else []
  }

  class ControlFile {
    var contents: string

    constructor ()
      ensures contents == ""
    {
      contents := "";
    }

    method Append(text: string)
      modifies this
      ensures contents == old(contents) + text
    {
      contents := contents + text;
    }
  }

  class App {
    var upfList: seq<string>
    var selectedUpf: nat
    var upfInput: string
    var upfInputMode: bool
    const controlFile: ControlFile

    ghost function State(): Ui
      reads this
    {
      Ui(upfList, selectedUpf, upfInput, upfInputMode)
    }

    constructor (upfs: seq<string>, file: ControlFile)
      ensures State() == Ui(upfs, 0, "", false) && controlFile == file
    {
      upfList, selectedUpf, upfInput, upfInputMode, controlFile := upfs, 0, "", false, file;
    }

    method SendUpfCommand(action: string, addr: string)
      modifies controlFile
      ensures controlFile.contents == old(controlFile.contents) + Encode(Command(action, addr))
    {
      controlFile.Append(action + ":" + addr + "\n");
    }

    method HandleKey(key: Key)
      modifies this, controlFile
      ensures State() == Press(old(State()), key)
      ensures controlFile.contents == old(controlFile.contents) + EncodeAll(Issued(old(State()), key))
    {
      if upfInputMode {
        match key
        case Char(c) => upfInput := upfInput + [c];
        case Backspace => if upfInput != "" { upfInput := upfInput[..|upfInput| - 1]; }
        case Enter => SubmitInput();
        case Esc => upfInput, upfInputMode := "", false;
        case _ =>
      } else {
        match key
        case Char(c) =>
          if c == 'a' {
            upfInputMode, upfInput := true, "";
          } else if c == 'd' {
            DeleteSelected();
          }
        case Up => if selectedUpf > 0 { selectedUpf := selectedUpf - 1; }
        case Down =>
          if upfList != [] {
            selectedUpf := if selectedUpf + 1 < |upfList| - 1 then selectedUpf + 1 else |upfList| - 1;
          }
        case _ =>
      }
    }

    method SubmitInput()
      requires upfInputMode
      modifies this, controlFile
      ensures State() == Press(old(State()), Enter)
      ensures controlFile.contents == old(controlFile.contents) + EncodeAll(Issued(old(State()), Enter))
    {
      if upfInput != "" {
        if |upfList| < 64 && upfInput !in upfList {
          upfList := upfList + [upfInput];
          SendUpfCommand("add", upfInput);
          OneCommand(Command("add", upfInput));
          upfInput, upfInputMode := "", false;
        }
      }
    }

    method DeleteSelected()
      requires !upfInputMode
      modifies this, controlFile
      ensures State() == Press(old(State()), Char('d'))
      ensures controlFile.contents == old(controlFile.contents) + EncodeAll(Issued(old(State()), Char('d')))
    {
      if upfList != [] && selectedUpf < |upfList| {
        var removed := upfList[selectedUpf];
        upfList := upfList[..selectedUpf] + upfList[selectedUpf + 1..];
        SendUpfCommand("remove", removed);
        OneCommand(Command("remove", removed));
        if selectedUpf >= |upfList| && selectedUpf > 0 {
          selectedUpf := selectedUpf - 1;
        }
      }
    }
  }

  lemma OneCommand(c: Command)
    ensures EncodeAll([c]) == Encode(c)
  {
    assert [c][1..] == [];
    assert EncodeAll([c]) == Encode(c) + EncodeAll([]);
  }

  // Sessions at the keyboard

  datatype Session = Opened(upfs: seq<string>) | Pressed(before: Session, key: Key)

  function UiAfter(s: Session): Ui {
    match s
    case Opened(upfs) => Ui(upfs, 0, "", false)
    case Pressed(before, key) => Press(UiAfter(before), key)
  }

  function IssuedBy(s: Session): seq<Command> {
    match s
    case Opened(_) => []
    case Pressed(before, key) => IssuedBy(before) + Issued(UiAfter(before), key)
  }

  function FirstList(s: Session): seq<string> {
    match s
    case Opened(upfs) => upfs
    case Pressed(before, _) => FirstList(before)
  }

  /** The UI's list as the commands alone tell it. */
  function ListAfter(upfs: seq<string>, cs: seq<Command>): seq<string> {
    if cs == [] then upfs else
    var list, last := ListAfter(upfs, cs[..|cs| - 1]), cs[|cs| - 1];
    if last.action == "add" then list + [last.addr] else WithoutValue(list, last.addr)
  }

  function WithoutValue(list: seq<string>, s: string): seq<string> {
    if list == [] then [] else
    WithoutValue(list[..|list| - 1], s) + if list[|list| - 1] != s then [list[|list| - 1]] else []
  }

  /** Each command makes sense for the list it meets: it adds a new address with room to spare, or removes one. */
  ghost predicate Sensible(upfs: seq<string>, cs: seq<Command>) {
    cs == [] ||
    var front, last := cs[..|cs| - 1], cs[|cs| - 1];
    var list := ListAfter(upfs, front);
    && Sensible(upfs, front)
    && ((last.action == "add" && |list| < MAX_BACKENDS && last.addr !in list)
        || (last.action == "remove" && last.addr in list))
  }

  lemma {:induction false} WithoutAbsent(list: seq<string>, s: string)
    requires s !in list
    ensures WithoutValue(list, s) == list
  {
    if list != [] {
      WithoutAbsent(list[..|list| - 1], s);
    }
  }

  /** In a list without repetitions, removing a position is removing its value. */
  lemma {:induction false} WithoutPosition(list: seq<string>, i: nat)
    requires i < |list| && Distinct(list)
    ensures Without(list, i) == WithoutValue(list, list[i])
  {
    var front, last := list[..|list| - 1], list[|list| - 1];
    if i < |front| {
      WithoutPosition(front, i);
      assert Without(list, i) == Without(front, i) + [last];
    } else {
      assert last !in front;
      WithoutAbsent(front, last);
      assert Without(list, i) == front;
    }
  }

  /** One key either leaves the list alone or issues the one command that describes the change. */
  lemma KeyFollowsCommand(ui: Ui, key: Key)
    requires Distinct(ui.upfs) && |ui.upfs| <= MAX_BACKENDS
    ensures var after, issued := Press(ui, key).upfs, Issued(ui, key);
      && Distinct(after) && |after| <= MAX_BACKENDS
      && (issued == [] ==> after == ui.upfs)
      && (issued != [] ==> |issued| == 1 && var c := issued[0];
            || (c.action == "add" && |ui.upfs| < MAX_BACKENDS && c.addr !in ui.upfs && after == ui.upfs + [c.addr])
            || (c.action == "remove" && c.addr in ui.upfs && after == WithoutValue(ui.upfs, c.addr)))
  {
    if key != Enter && Issued(ui, key) != [] {
      WithoutPosition(ui.upfs, ui.selected);
    }
  }

  /** Whatever keys are pressed, the UI's list is what its commands say, and every command makes sense. */
  lemma {:induction false} SessionFollowsCommands(s: Session)
    requires Distinct(FirstList(s)) && |FirstList(s)| <= 64
    ensures UiAfter(s).upfs == ListAfter(FirstList(s), IssuedBy(s))
    ensures Sensible(FirstList(s), IssuedBy(s))
    ensures Distinct(UiAfter(s).upfs) && |UiAfter(s).upfs| <= 64
  {
    if s.Pressed? {
      hide Press, Issued, WithoutValue;
      SessionFollowsCommands(s.before);
      var ui, cs := UiAfter(s.before), IssuedBy(s.before);
      KeyFollowsCommand(ui, s.key);
      var issued := Issued(ui, s.key);
      if issued == [] {
        assert cs + issued == cs;
      } else {
        assert (cs + issued)[..|cs|] == cs;
      }
    }
  }

  // What the keys do, key by key and over whole sessions

  /** The session goes on with the keys of a text, typed in order. */
  function Typed(s: Session, text: string): Session {
    if text == "" then s else Pressed(Typed(s, text[..|text| - 1]), Char(text[|text| - 1]))
  }

  /** The session goes on with the same key, pressed `n` times. */
  function Repeated(s: Session, key: Key, n: nat): Session {
    if n == 0 then s else Pressed(Repeated(s, key, n - 1), key)
  }

  /** In the input, a character is added at the end, backspace takes the last one away, and escape closes it. */
  lemma EditingKeys(ui: Ui, c: char)
    requires ui.inputMode
    ensures Press(ui, Char(c)) == ui.(input := ui.input + [c]) && Issued(ui, Char(c)) == []
    ensures Press(ui, Backspace) == ui.(input := if ui.input == "" then "" else ui.input[..|ui.input| - 1])
    ensures Press(ui, Esc) == ui.(input := "", inputMode := false) && Issued(ui, Esc) == []
  {
  }

  lemma SilentKey(s: Session, key: Key)
    requires Issued(UiAfter(s), key) == []
    ensures IssuedBy(Pressed(s, key)) == IssuedBy(s)
  {
  }

  lemma {:induction false} TypingAppends(s: Session, text: string)
    requires UiAfter(s).inputMode
    ensures UiAfter(Typed(s, text)) == UiAfter(s).(input := UiAfter(s).input + text)
    ensures IssuedBy(Typed(s, text)) == IssuedBy(s)
  {
    hide Press, Issued;
    if text == "" {
      assert UiAfter(s).input + text == UiAfter(s).input;
    } else {
      var front, last := text[..|text| - 1], text[|text| - 1];
      TypingAppends(s, front);
      EditingKeys(UiAfter(Typed(s, front)), last);
      SilentKey(Typed(s, front), Char(last));
      assert UiAfter(s).input + text == UiAfter(s).input + front + [last];
    }
  }

  /** A key that issues a command puts its text at the end of what the session wrote. */
  lemma IssuedText(s: Session, key: Key, c: Command)
    requires Issued(UiAfter(s), key) == [c]
    ensures EncodeAll(IssuedBy(Pressed(s, key))) == EncodeAll(IssuedBy(s)) + Encode(c)
  {
    hide UiAfter, Issued;
    EncodeAppend(IssuedBy(s), c);
  }

  lemma TextOfAdd(addr: string)
    ensures Encode(Command("add", addr)) == "add:" + addr + "\n"
  {
    assert "add" + ":" == "add:";
  }

  lemma TextOfRemove(addr: string)
    ensures Encode(Command("remove", addr)) == "remove:" + addr + "\n"
  {
    assert "remove" + ":" == "remove:";
  }

  lemma OpenInput(s: Session, text: string)
    requires !UiAfter(s).inputMode
    ensures var typed := Typed(Pressed(s, Char('a')), text);
      UiAfter(typed) == UiAfter(s).(input := text, inputMode := true) && IssuedBy(typed) == IssuedBy(s)
  {
    var open := Pressed(s, Char('a'));
    assert UiAfter(open) == UiAfter(s).(input := "", inputMode := true);
    SilentKey(s, Char('a'));
    hide UiAfter, IssuedBy, Typed;
    TypingAppends(open, text);
    assert "" + text == text;
  }

  /**
   * Typing an address after `a` and confirming it puts it at the end of the list and `add:<address>` at the end of the
   * file, if the list has fewer than 64 addresses and not this one; otherwise the input stays open and nothing is
   * written.
   */
  lemma TypedAddressIsAnnounced(s: Session, text: string)
    requires !UiAfter(s).inputMode && text != ""
    ensures var ui, end := UiAfter(s), Pressed(Typed(Pressed(s, Char('a')), text), Enter);
      if |ui.upfs| < 64 && text !in ui.upfs
      then UiAfter(end) == Ui(ui.upfs + [text], ui.selected, "", false)
           && EncodeAll(IssuedBy(end)) == EncodeAll(IssuedBy(s)) + ("add:" + text + "\n")
      else UiAfter(end) == Ui(ui.upfs, ui.selected, text, true) && IssuedBy(end) == IssuedBy(s)
  {
    hide Encode, EncodeAll, Typed;
    OpenInput(s, text);
    var typed := Typed(Pressed(s, Char('a')), text);
    if CanAdd(UiAfter(typed)) {
      IssuedText(typed, Enter, Command("add", text));
      TextOfAdd(text);
    } else {
      assert IssuedBy(s) + [] == IssuedBy(s);
    }
  }

  /** `d` takes the selected address out of the list, writes `remove:<address>`, and keeps the selection in range. */
  lemma DeletionIsAnnounced(s: Session)
    requires !UiAfter(s).inputMode && UiAfter(s).selected < |UiAfter(s).upfs|
    ensures var ui, end := UiAfter(s), Pressed(s, Char('d'));
      && UiAfter(end).upfs == ui.upfs[..ui.selected] + ui.upfs[ui.selected + 1..]
      && UiAfter(end).selected == (if 0 < ui.selected == |ui.upfs| - 1 then ui.selected - 1 else ui.selected)
      && UiAfter(end).input == ui.input && !UiAfter(end).inputMode
      && EncodeAll(IssuedBy(end)) == EncodeAll(IssuedBy(s)) + ("remove:" + ui.upfs[ui.selected] + "\n")
  {
    hide Encode, EncodeAll, IssuedBy;
    var c := Command("remove", UiAfter(s).upfs[UiAfter(s).selected]);
    IssuedText(s, Char('d'), c);
    TextOfRemove(c.addr);
  }

  /** Backspace takes back what was typed, key by key, and leaves an empty input empty. */
  lemma BackspaceUndoesTyping(s: Session, text: string, more: nat)
    requires UiAfter(s).inputMode && UiAfter(s).input == ""
    ensures UiAfter(Repeated(Typed(s, text), Backspace, |text| + more)) == UiAfter(s)
  {
    hide UiAfter, Typed, Repeated;
    TypingAppends(s, text);
    assert "" + text == text;
    ErasingFrom(Typed(s, text), |text| + more);
    assert more == 0 ==> text[..0] == "";
  }

  lemma {:induction false} ErasingFrom(s: Session, n: nat)
    requires UiAfter(s).inputMode
    ensures var input := UiAfter(s).input;
      UiAfter(Repeated(s, Backspace, n)) == UiAfter(s).(input := if n <= |input| then input[..|input| - n] else "")
  {
    hide Press;
    if n > 0 {
      ErasingFrom(s, n - 1);
      EditingKeys(UiAfter(Repeated(s, Backspace, n - 1)), ' ');
    }
  }

  /** Escape discards what was typed and closes the input; the list and the file stay as they were. */
  lemma EscapeDiscards(s: Session, text: string)
    requires !UiAfter(s).inputMode
    ensures var end := Pressed(Typed(Pressed(s, Char('a')), text), Esc);
      UiAfter(end) == UiAfter(s).(input := "") && IssuedBy(end) == IssuedBy(s)
  {
    hide Press, Issued, Typed;
    OpenInput(s, text);
    var typed := Typed(Pressed(s, Char('a')), text);
    EditingKeys(UiAfter(typed), ' ');
    SilentKey(typed, Esc);
  }

  lemma MovingKeys(ui: Ui)
    requires !ui.inputMode && ui.selected < |ui.upfs|
    ensures Issued(ui, Down) == [] && Issued(ui, Up) == []
    ensures Press(ui, Down) == ui.(selected := if ui.selected + 1 < |ui.upfs| then ui.selected + 1 else ui.selected)
    ensures Press(ui, Up) == ui.(selected := if ui.selected > 0 then ui.selected - 1 else 0)
  {
  }

  /** Down moves the selection on by one and stops at the end of the list. */
  lemma {:induction false} DownStopsAtTheEnd(s: Session, n: nat)
    requires !UiAfter(s).inputMode && UiAfter(s).selected < |UiAfter(s).upfs|
    ensures var ui, end := UiAfter(s), Repeated(s, Down, n);
      && UiAfter(end) == ui.(selected := if ui.selected + n < |ui.upfs| then ui.selected + n else |ui.upfs| - 1)
      && IssuedBy(end) == IssuedBy(s)
  {
    hide Press, Issued;
    if n > 0 {
      DownStopsAtTheEnd(s, n - 1);
      MovingKeys(UiAfter(Repeated(s, Down, n - 1)));
      SilentKey(Repeated(s, Down, n - 1), Down);
    }
  }

  /** Up moves the selection back by one and stops at the beginning of the list. */
  lemma {:induction false} UpStopsAtTheBeginning(s: Session, n: nat)
    requires !UiAfter(s).inputMode && UiAfter(s).selected < |UiAfter(s).upfs|
    ensures var ui, end := UiAfter(s), Repeated(s, Up, n);
      && UiAfter(end) == ui.(selected := if n <= ui.selected then ui.selected - n else 0)
      && IssuedBy(end) == IssuedBy(s)
  {
    hide Press, Issued;
    if n > 0 {
      UpStopsAtTheBeginning(s, n - 1);
      MovingKeys(UiAfter(Repeated(s, Up, n - 1)));
      SilentKey(Repeated(s, Up, n - 1), Up);
    }
  }

  /** Whatever keys are pressed, the selection is on an address of the list, or at zero when the list is empty. */
  lemma {:induction false} SelectionStaysInRange(s: Session)
    ensures var ui := UiAfter(s); ui.selected < |ui.upfs| || (ui.upfs == [] && ui.selected == 0)
  {
    if s.Pressed? {
      SelectionStaysInRange(s.before);
    }
  }

  // Agreement with the proxy

  /** The pool and the list name the same addresses in the same order. */
  ghost predicate Matches(parse: Parser, backends: seq<UpfBackend>, list: seq<string>) {
    && |backends| == |list|
    && forall i :: 0 <= i < |list| ==> parse(list[i]) == Some(backends[i].addr)
  }

  /** All the strings in play denote addresses, and different strings different addresses. */
  ghost predicate Unambiguous(parse: Parser, strings: set<string>) {
    && (forall s :: s in strings ==> parse(s).Some?)
    && (forall s, t :: s in strings && t in strings && parse(s) == parse(t) ==> s == t)
  }

  lemma {:induction false} RemovedFollowsList(parse: Parser, strings: set<string>, backends: seq<UpfBackend>,
                                             list: seq<string>, s: string, addr: SocketAddr)
    requires Unambiguous(parse, strings) && s in strings && parse(s) == Some(addr)
    requires forall t :: t in list ==> t in strings
    requires Matches(parse, backends, list)
    ensures Matches(parse, Removed(backends, addr), WithoutValue(list, s))
  {
    if list != [] {
      var n := |list| - 1;
      assert list[n] in list;
      RemovedFollowsList(parse, strings, backends[..n], list[..n], s, addr);
    }
  }

  lemma MatchedMember(parse: Parser, strings: set<string>, backends: seq<UpfBackend>, list: seq<string>, s: string)
    requires Unambiguous(parse, strings) && s in strings && Matches(parse, backends, list)
    requires forall t :: t in list ==> t in strings
    ensures parse(s).value in AddrsOf(backends) <==> s in list
  {
    if s in list {
      var i :| 0 <= i < |list| && list[i] == s;
      assert AddrsOf(backends)[i] == parse(s).value;
    }
    if parse(s).value in AddrsOf(backends) {
      var i :| 0 <= i < |backends| && AddrsOf(backends)[i] == parse(s).value;
      assert list[i] in list;
    }
  }

  /**
   * Agreement: with the same starting addresses, unambiguous address strings and each command applied once, the proxy's
   * pool and the UI's list are the same sequence after every sensible list of commands.
   */
  lemma {:induction false} PoolFollowsList(parse: Parser, strings: set<string>, backends: seq<UpfBackend>,
                                          upfs: seq<string>, cs: seq<Command>)
    requires Unambiguous(parse, strings) && Sensible(upfs, cs)
    requires (forall s :: s in upfs ==> s in strings) && (forall c :: c in cs ==> c.addr in strings)
    requires Matches(parse, backends, upfs)
    ensures Matches(parse, ApplyAll(parse, backends, cs), ListAfter(upfs, cs))
    ensures forall s :: s in ListAfter(upfs, cs) ==> s in strings
  {
    if cs != [] {
      var front, last := cs[..|cs| - 1], cs[|cs| - 1];
      assert last in cs && last.addr in strings;
      PoolFollowsList(parse, strings, backends, upfs, front);
      var pool, list := ApplyAll(parse, backends, front), ListAfter(upfs, front);
      if last.action == "add" {
        MatchedMember(parse, strings, pool, list, last.addr);
      } else {
        RemovedFollowsList(parse, strings, pool, list, last.addr, parse(last.addr).value);
        WithoutValueMembers(list, last.addr);
      }
    }
  }

  lemma {:induction false} WithoutValueMembers(list: seq<string>, s: string)
    ensures forall t :: t in WithoutValue(list, s) ==> t in list
  {
    if list != [] {
      WithoutValueMembers(list[..|list| - 1], s);
    }
  }

  lemma {:induction false} SensiblePrefix(upfs: seq<string>, cs: seq<Command>, n: nat)
    requires Sensible(upfs, cs) && n <= |cs|
    ensures Sensible(upfs, cs[..n])
  {
    if n < |cs| {
      SensiblePrefix(upfs, cs[..|cs| - 1], n);
      assert cs[..|cs| - 1][..n] == cs[..n];
    } else {
      assert cs[..n] == cs;
    }
  }

  /** When the file holds what the session wrote, its lines are read back as the issued commands. */
  lemma FileReadsAsCommands(parse: Parser, s: Session, h: History, n: nat)
    requires Legal(h) && FileText(Log(h)) == EncodeAll(IssuedBy(s)) && forall c :: c in IssuedBy(s) ==> WellFormed(c)
    requires n <= |Log(h)|
    ensures |IssuedBy(s)| == |Log(h)|
    ensures ApplyLines(parse, Initial(h), ReadLines(h)[..n]) == ApplyAll(parse, Initial(h), IssuedBy(s)[..n])
  {
    hide ApplyLines, ApplyAll, Lines, FileText, EncodeAll, LineOf, CommandsOf;
    var cs := IssuedBy(s);
    LegalLogLines(h);
    LinesOfFile(Log(h));
    LinesOfWellFormed(cs);
    assert ReadLines(h) == LinesFor(cs) && LinesFor(cs)[..n] == LinesFor(cs[..n]);
    assert forall c :: c in cs[..n] ==> c in cs;
    LinesApplyCommands(parse, Initial(h), cs[..n]);
  }

  /**
   * End to end: for any session at the keyboard whose commands are what the file holds, and any run of the monitor over
   * it in which no pass skips unread lines, the addresses in the proxy's pool are those of the UI's list as it was
   * after the last command read; once all commands are read, those of the list on the screen.
   */
  lemma PoolMatchesScreen(parse: Parser, strings: set<string>, universe: set<SocketAddr>, s: Session, h: History)
    requires Distinct(FirstList(s)) && |FirstList(s)| <= 64 && FileText(Log(h)) == EncodeAll(IssuedBy(s))
    requires Unambiguous(parse, strings)
    requires (forall t :: t in FirstList(s) ==> t in strings) && (forall c :: c in IssuedBy(s) ==> c.addr in strings)
    requires forall c :: c in IssuedBy(s) ==> WellFormed(c)
    requires Matches(parse, Initial(h), FirstList(s))
    requires Covers(parse, universe, Initial(h), ReadLines(h)) && |universe| <= 64
    requires Legal(h) && NeverOverskips(h)
    ensures Consumed(h) <= |IssuedBy(s)| == |Log(h)|
    ensures var list := ListAfter(FirstList(s), IssuedBy(s)[..Consumed(h)]);
      && (forall a :: a in AddrsOf(PoolAfter(parse, h)) <==> exists t :: t in list && parse(t) == Some(a))
      && (Consumed(h) == |Log(h)| ==> list == UiAfter(s).upfs)
  {
    hide ApplyLines, PoolAfter, Consumed, ListAfter, FileText, EncodeAll, Mentioned;
    SessionFollowsCommands(s);
    AppliedAreConsumed(h);
    FileReadsAsCommands(parse, s, h, Consumed(h));
    var cs := IssuedBy(s)[..Consumed(h)];
    assert forall c :: c in cs ==> c in IssuedBy(s);
    SensiblePrefix(FirstList(s), IssuedBy(s), Consumed(h));
    PoolFollowsList(parse, strings, Initial(h), FirstList(s), cs);
    InitialIsDistinct(parse, strings, Initial(h), FirstList(s));
    var list, once := ListAfter(FirstList(s), cs), ApplyAll(parse, Initial(h), cs);
    forall a
      ensures a in AddrsOf(PoolAfter(parse, h)) <==> exists t :: t in list && parse(t) == Some(a)
    {
      PoolIsExactlyOnce(parse, universe, h, a);
      MatchedAddress(parse, once, list, a);
    }
    if Consumed(h) == |Log(h)| {
      assert cs == IssuedBy(s);
    }
  }

  lemma MatchedAddress(parse: Parser, backends: seq<UpfBackend>, list: seq<string>, a: SocketAddr)
    requires Matches(parse, backends, list)
    ensures a in AddrsOf(backends) <==> exists t :: t in list && parse(t) == Some(a)
  {
    if a in AddrsOf(backends) {
      var i :| 0 <= i < |backends| && AddrsOf(backends)[i] == a;
      assert list[i] in list && parse(list[i]) == Some(a);
    }
    if t :| t in list && parse(t) == Some(a) {
      var i :| 0 <= i < |list| && list[i] == t;
      assert AddrsOf(backends)[i] == a;
    }
  }

  lemma InitialIsDistinct(parse: Parser, strings: set<string>, backends: seq<UpfBackend>, upfs: seq<string>)
    requires Unambiguous(parse, strings) && Distinct(upfs) && forall t :: t in upfs ==> t in strings
    requires Matches(parse, backends, upfs)
    ensures Distinct(AddrsOf(backends))
  {
    forall i, j | 0 <= i < j < |backends|
      ensures AddrsOf(backends)[i] != AddrsOf(backends)[j]
    {
      assert upfs[i] in upfs && upfs[j] in upfs;
    }
  }
}
