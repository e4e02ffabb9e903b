/**
 * The Web CLI panel: an input line, the output history and a position in
 * the list of past commands, driven by key events. Enter records a command,
 * ArrowUp and ArrowDown walk through past commands, Ctrl/Cmd+K clears.
 * Opening, closing and Escape are not modelled.
 */
module WebCli {
  import opened JsString

  /** The prefix every recorded command line carries. */
  const Prompt: string := "$ "

  /** The component's three state cells. */
  datatype CliState = CliState(history: seq<string>, historyIndex: int, input: string)

  /** The state on mount: no history, no recalled command, empty input. */
  const Initial: CliState := CliState([], -1, "")

  /**
   * The past commands, oldest first: the history lines that start with the
   * prompt, with the prompt removed (`replace` removes the first occurrence,
   * which is the leading one).
   */
  function Commands(history: seq<string>): (cmds: seq<string>)
    ensures |cmds| <= |history|
  {
    if history == [] then []
    else
      (if StartsWith(history[0], Prompt) then [history[0][|Prompt|..]] else [])
      + Commands(history[1..])
  }

  /** Recording a line appends its command, if it is one, to the past commands. */
  lemma {:induction false} CommandsAppend(history: seq<string>, line: string)
    ensures Commands(history + [line]) ==
      Commands(history) + (if StartsWith(line, Prompt) then [line[|Prompt|..]] else [])
  {
    if history != [] {
      assert (history + [line])[1..] == history[1..] + [line];
      CommandsAppend(history[1..], line);
    } else {
      assert [] + [line] == [line];
    }
  }

  /** `historyIndex` is -1 (nothing recalled) or a position among the past commands, counted from the newest. */
  predicate Valid(s: CliState) {
    -1 <= s.historyIndex < |Commands(s.history)|
  }

  /** The command `index` steps back from the newest. */
  function Recalled(cmds: seq<string>, index: int): (c: string)
    requires 0 <= index < |cmds|
    ensures c in cmds
    ensures index == 0 ==> c == cmds[|cmds| - 1]
  {
    cmds[|cmds| - 1 - index]
  }

  /**
   * Enter. A blank input (empty after `trim`) matches neither this branch
   * nor the arrow branches, so nothing changes. Otherwise the line is
   * recorded, the input cleared and the index reset; the command `clear`
   * (any letter case) empties the history instead, its update being the
   * later of the two.
   */
  function OnEnter(s: CliState): (r: CliState)
    ensures r == s <==> Trim(s.input) == []
    ensures r != s ==>
      && r.historyIndex == -1 && r.input == ""
      && (r.history == [] || r.history == s.history + [Prompt + s.input])
  {
    if Trim(s.input) == [] then s
    else
      var history := if Lower(s.input) == "clear" then [] else s.history + [Prompt + s.input];
      CliState(history, -1, "")
  }

  /** ArrowUp: one command further back, if there is one. */
  function OnArrowUp(s: CliState): (r: CliState)
    requires Valid(s)
    ensures Valid(r) && r.history == s.history
    ensures r == s || (r.historyIndex == s.historyIndex + 1 && r.input == Recalled(Commands(s.history), r.historyIndex))
  {
    var cmds := Commands(s.history);
    if |cmds| == 0 then s
    else
      var newIndex := s.historyIndex + 1;
      if newIndex < |cmds| then s.(historyIndex := newIndex, input := Recalled(cmds, newIndex)) else s
  }

  /** ArrowDown: one command forward; from the newest back to an empty input; nothing when none is recalled. */
  function OnArrowDown(s: CliState): (r: CliState)
    requires Valid(s)
    ensures Valid(r) && r.history == s.history
    ensures r.historyIndex == -1 || r.historyIndex == s.historyIndex - 1
    ensures r.historyIndex >= 0 ==> r.input == Recalled(Commands(s.history), r.historyIndex)
  {
    var cmds := Commands(s.history);
    if s.historyIndex > 0 then
      var newIndex := s.historyIndex - 1;
      s.(historyIndex := newIndex, input := Recalled(cmds, newIndex))
    else if s.historyIndex == 0 then
      s.(historyIndex := -1, input := "")
    else
      s
  }

  /** Ctrl/Cmd+K: the history is emptied and the index reset; the input stays. */
  function OnClearShortcut(s: CliState): (r: CliState)
    ensures Commands(r.history) == [] && r.historyIndex == -1 && Valid(r)
    ensures r.input == s.input
  {
    s.(history := [], historyIndex := -1)
  }

  /** Typing replaces the input. */
  function OnType(s: CliState, text: string): (r: CliState)
    ensures r.input == text && Commands(r.history) == Commands(s.history)
    ensures Valid(r) <==> Valid(s)
  {
    s.(input := text)
  }

  /** Every key event keeps the index within the past commands. */
  lemma KeyEventsPreserveValid(s: CliState, text: string)
    requires Valid(s)
    ensures Valid(OnEnter(s)) && Valid(OnArrowUp(s)) && Valid(OnArrowDown(s))
    ensures Valid(OnClearShortcut(s)) && Valid(OnType(s, text))
    ensures Valid(Initial)
  {
    var e := OnEnter(s);
    assert e.historyIndex == -1 || e == s;
    var cmds := Commands(s.history);
    var u := OnArrowUp(s);
    assert u.history == s.history;
    assert u.historyIndex == s.historyIndex || u.historyIndex == s.historyIndex + 1 < |cmds|;
    var d := OnArrowDown(s);
    assert d.history == s.history;
    assert d.historyIndex == s.historyIndex || d.historyIndex == s.historyIndex - 1 >= 0 || d.historyIndex == -1;
  }

  /** Enter on a non-blank input other than `clear` records `$ input`, appends `input` to the past commands and resets the line. */
  lemma EnterRecordsCommand(s: CliState)
    requires !AllWhitespace(s.input) && Lower(s.input) != "clear"
    ensures var r := OnEnter(s);
      && r.history == s.history + [Prompt + s.input]
      && Commands(r.history) == Commands(s.history) + [s.input]
      && r.input == [] && r.historyIndex == -1
  {
    TrimEmptyIffBlank(s.input);
    CommandsAppend(s.history, Prompt + s.input);
    assert StartsWith(Prompt + s.input, Prompt);
    assert (Prompt + s.input)[|Prompt|..] == s.input;
  }

  /** Enter on `clear`, in any letter case, leaves the history empty. */
  lemma EnterClearEmptiesHistory(s: CliState)
    requires Lower(s.input) == "clear"
    ensures OnEnter(s) == CliState([], -1, "")
  {
    TrimEmptyIffBlank(s.input);
    assert !IsWhitespace(s.input[0]) by {
      assert LowerChar(s.input[0]) == 'c';
    }
  }

  /** Enter on an empty or all-white-space input changes nothing. */
  lemma EnterOnBlankInput(s: CliState)
    requires AllWhitespace(s.input)
    ensures OnEnter(s) == s
  {
    TrimEmptyIffBlank(s.input);
  }

  /** ArrowUp moves one command back and shows it while there is an older one, and otherwise changes nothing. */
  lemma ArrowUpRecallsOlder(s: CliState)
    requires Valid(s)
    ensures var cmds := Commands(s.history); var r := OnArrowUp(s);
      if s.historyIndex + 1 < |cmds| then
        r.historyIndex == s.historyIndex + 1 && r.input == cmds[|cmds| - 1 - r.historyIndex]
        && r.history == s.history
      else r == s
  {
  }

  /** ArrowDown from a recalled command moves one newer; from the newest it empties the input; otherwise nothing. */
  lemma ArrowDownRecallsNewer(s: CliState)
    requires Valid(s)
    ensures var cmds := Commands(s.history); var r := OnArrowDown(s);
      && r.history == s.history
      && (s.historyIndex > 0 ==>
            r.historyIndex == s.historyIndex - 1 && r.input == cmds[|cmds| - 1 - r.historyIndex])
      && (s.historyIndex == 0 ==> r.historyIndex == -1 && r.input == [])
      && (s.historyIndex == -1 ==> r == s)
  {
  }

  /** ArrowDown undoes a moving ArrowUp, showing the command (or empty line) at the old position. */
  lemma UpThenDownReturns(s: CliState)
    requires Valid(s) && s.historyIndex + 1 < |Commands(s.history)|
    ensures var cmds := Commands(s.history);
      OnArrowDown(OnArrowUp(s)) ==
        s.(input := if s.historyIndex == -1 then [] else cmds[|cmds| - 1 - s.historyIndex])
  {
    var u := OnArrowUp(s);
    assert u.history == s.history && u.historyIndex == s.historyIndex + 1;
    assert Valid(u);
  }

  /** After a command is entered, ArrowUp brings it back. */
  lemma UpAfterEnterRecallsIt(s: CliState)
    requires Valid(s) && !AllWhitespace(s.input) && Lower(s.input) != "clear"
    ensures Valid(OnEnter(s))
    ensures OnArrowUp(OnEnter(s)).input == s.input
    ensures OnArrowUp(OnEnter(s)).historyIndex == 0
  {
    EnterRecordsCommand(s);
  }

  /** The component as its three state cells, one method per key event. */
  class Terminal {
    var history: seq<string>
    var historyIndex: int
    var input: string

    function State(): CliState
      reads this
    {
      CliState(history, historyIndex, input)
    }

    constructor ()
      ensures State() == Initial && Valid(State())
    {
      history, historyIndex, input := [], -1, "";
    }

    method Enter()
      requires Valid(State())
      modifies this
      ensures State() == OnEnter(old(State())) && Valid(State())
    {
      if Trim(input) != [] {
        var line := Prompt + input;
        history := history + [line];
        if Lower(input) == "clear" {
          history := [];
        }
        input := "";
        historyIndex := -1;
      }
    }

    method ArrowUp()
      requires Valid(State())
      modifies this
      ensures State() == OnArrowUp(old(State())) && Valid(State())
    {
      var commands := Commands(history);
      if |commands| == 0 {
        return;
      }
      var newIndex := historyIndex + 1;
      if newIndex < |commands| {
        historyIndex := newIndex;
        input := commands[|commands| - 1 - newIndex];
      }
    }

    method ArrowDown()
      requires Valid(State())
      modifies this
      ensures State() == OnArrowDown(old(State())) && Valid(State())
    {
      var commands := Commands(history);
      if historyIndex > 0 {
        var newIndex := historyIndex - 1;
        historyIndex := newIndex;
        input := commands[|commands| - 1 - newIndex];
      } else if historyIndex == 0 {
        historyIndex := -1;
        input := "";
      }
    }

    method ClearShortcut()
      requires Valid(State())
      modifies this
      ensures State() == OnClearShortcut(old(State())) && Valid(State())
    {
      history := [];
      historyIndex := -1;
    }

    method Type(text: string)
      requires Valid(State())
      modifies this
      ensures State() == OnType(old(State()), text) && Valid(State())
    {
      input := text;
    }
  }
}
