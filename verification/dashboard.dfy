/** The terminal dashboard: a list of listening ports on the left, the
    process lookup and the container lookup for the selected port on the
    right, vi-style keys to move between them, `c` to copy a pane to the
    clipboard and a modal that reports the outcome and closes on the next key.

    The widgets are reduced to the state the program reads and writes: the
    list's items and current index, the focused widget, the root of the
    screen and the two panes' texts. External commands and the clipboard are
    stood in for by their results (an `Environment` per event); the ghost
    logs `commands` and `clipboardWrites` record what the program hands to
    them. */
module Dashboard {
  import opened Options
  import opened Strings
  import opened Commands
  import opened Ports
  import opened Ansi
  import opened Docker

  /** The widgets that can hold focus: the port list, the two output panes
      and the text view of the modal currently shown. */
  datatype Pane = PortList | LsofPane | DockerPane | ModalText

  /** The root of the screen: the three-pane layout, or a modal. `serial`
      tells modals apart: every modal shown is a new widget. */
  datatype Root = MainLayout | Modal(serial: nat, text: string, title: string)

  /** A key event: a printable character; Ctrl-C, which the application
      itself acts on once its input capture has let it through; or any other
      key (arrows, Enter, other control keys), which the program's handlers
      let through. */
  datatype Key = Rune(ch: char) | CtrlC | Special(code: int)

  /** What `clipboard.WriteAll` reports. */
  datatype ClipboardResult = Written | WriteFailed(err: string)

  /** The outside world's answers during one event: the process lookup, the
      container lookup and the clipboard write, each used only if the event
      asks for it. */
  datatype Environment = Environment(lsof: CommandResult, docker: CommandResult, clipboard: ClipboardResult)

  const NotDocker := "Not a Docker process"
  const CopiedText := "Copied to clipboard"
  const CopiedTitle := "Clipboard"
  const CopyErrorTitle := "Clipboard Error"

  function CopyErrorText(err: string): string
  {
    "Error copying to clipboard: \n" + err
  }

  /** Everything the dashboard's handlers read or write. */
  datatype View = View(
    items: seq<string>,
    current: int,
    focus: Pane,
    root: Root,
    shown: nat,
    lsofText: string,
    dockerText: string,
    stopped: bool,
    commands: seq<seq<string>>,
    clipboardWrites: seq<string>)

  /** The invariant of a running dashboard: the list is never empty and the
      current index is one of its positions; focus on a modal's text view
      means that modal is the root; every modal on screen has been counted. */
  predicate ViewValid(v: View)
  {
    && |v.items| >= 1
    && 0 <= v.current < |v.items|
    && (v.focus == ModalText ==> v.root.Modal?)
    && (v.root.Modal? ==> v.root.serial < v.shown)
  }

  // ---------------------------------------------------------------------------
  // The handlers, as functions of the state before the event

  /** The changed callback of the list: look the port up with `lsof`, show
      the answer (or the error) in the upper pane, and only if the answer
      mentions docker look the port up with `docker ps` for the lower pane. */
  function AfterSelection(v: View, mainText: string, env: Environment): View
  {
    var lsofOut := ShownOutput(env.lsof);
    var isDocker := IsDockerProcess(lsofOut);
    v.(lsofText := lsofOut,
       dockerText := if isDocker then ShownOutput(env.docker) else NotDocker,
       commands := v.commands + [InspectCommand(mainText)] + (if isDocker then [DockerCommand(mainText)] else []))
  }

  /** The index the list's `SetCurrentItem` settles on: a negative index
      counts from the end, and the result is clamped to the list. */
  function Clamp(index: int, count: nat): (i: int)
    requires count >= 1
    ensures 0 <= i < count
    ensures 0 <= index < count ==> i == index
    ensures index >= count ==> i == count - 1
  {
    var a := if index < 0 then count + index else index;
    var b := if a >= count then count - 1 else a;
    if b < 0 then 0 else b
  }

  /** `SetCurrentItem`: the changed callback runs only when the index moves. */
  function AfterSetCurrent(v: View, index: int, env: Environment): View
    requires |v.items| >= 1
  {
    var i := Clamp(index, |v.items|);
    var w := if i != v.current then AfterSelection(v, v.items[i], env) else v;
    w.(current := i)
  }

  /** `showModal`: a new modal becomes the root and its text view takes focus. */
  function AfterModal(v: View, text: string, title: string): View
  {
    v.(root := Modal(v.shown, text, title), shown := v.shown + 1, focus := ModalText)
  }

  /** The modal's own key capture: back to the three-pane layout, whose
      focus goes to the port list. */
  function AfterDismiss(v: View): View
  {
    v.(root := MainLayout, focus := PortList)
  }

  /** The text of the focused widget when it is a text view: one of the
      output panes, or the modal's. */
  function FocusedText(focus: Pane, root: Root, lsofText: string, dockerText: string): (t: Option<string>)
    ensures t.None? <==> focus == PortList || (focus == ModalText && !root.Modal?)
  {
    match focus
    case PortList => None
    case LsofPane => Some(lsofText)
    case DockerPane => Some(dockerText)
    case ModalText => if root.Modal? then Some(root.text) else None
  }

  /** Copying: the text goes to the clipboard, and a modal reports the outcome. */
  function AfterCopy(v: View, text: string, result: ClipboardResult): View
  {
    var w := v.(clipboardWrites := v.clipboardWrites + [text]);
    match result
    case Written => AfterModal(w, CopiedText, CopiedTitle)
    case WriteFailed(err) => AfterModal(w, CopyErrorText(err), CopyErrorTitle)
  }

  /** The application's input capture: the new state, and whether the event
      is passed on (`false` where the handler returns nil). */
  function AfterCapture(v: View, key: Key, env: Environment): (View, bool)
    requires ViewValid(v)
  {
    match key
    case CtrlC => (v, true)
    case Special(_) => (v, true)
    case Rune(c) =>
      if c == 'h' then (v.(focus := PortList), false)
      else if c == 'l' then (v.(focus := LsofPane), false)
      else if c == 'j' then
        if v.focus == PortList then
          (if v.current < |v.items| - 1 then AfterSetCurrent(v, v.current + 1, env) else v, true)
        else (v.(focus := DockerPane), true)
      else if c == 'k' then
        if v.focus == PortList then
          (if v.current > 0 then AfterSetCurrent(v, v.current - 1, env) else v, true)
        else (v.(focus := LsofPane), true)
      else if c == 'q' then (v.(stopped := true), true)
      else if c == 'c' then
        match FocusedText(v.focus, v.root, v.lsofText, v.dockerText)
        case None => (v, true)
        case Some(t) => (AfterCopy(v, StripAnsiCodes(t), env.clipboard), true)
      else (v, true)
  }

  /** One key event as the application dispatches it: the input capture
      first; an event it passes on goes to the root it found on screen, which
      acts on it only while that root still holds the focus. Of the roots
      only the modal's text view has a capture of its own. Ctrl-C, passed
      on, stops the application and reaches no root. Once stopped, the event
      loop has ended and no key arrives. */
  function AfterKey(v: View, key: Key, env: Environment): View
    requires ViewValid(v)
  {
    if v.stopped then v
    else
      var (w, passed) := AfterCapture(v, key, env);
      if passed && key == CtrlC then w.(stopped := true)
      else if passed && v.root.Modal? && w.root == v.root && w.focus == ModalText then AfterDismiss(w)
      else w
  }

  /** The state once the list is filled and its second entry, the first
      port, has been selected. */
  function Launch(items: seq<string>, env: Environment): View
    requires |items| >= 1
  {
    var initial := View(items, 0, PortList, MainLayout, 0, "", "", false, [ScanCommand()], []);
    AfterSetCurrent(initial, 1, env)
  }

  // ---------------------------------------------------------------------------
  // Properties of the handlers

  /** A selection change touches only the panes and the command log. */
  lemma SelectionKeepsLayout(v: View, port: string, env: Environment)
    ensures var r := AfterSelection(v, port, env);
      r.items == v.items && r.current == v.current && r.focus == v.focus
      && r.root == v.root && r.shown == v.shown && r.stopped == v.stopped
      && r.clipboardWrites == v.clipboardWrites
  {
  }

  /** `SetCurrentItem` keeps the invariant and moves nothing but the
      selection and the panes. */
  lemma SetCurrentValid(v: View, index: int, env: Environment)
    requires ViewValid(v)
    ensures var r := AfterSetCurrent(v, index, env);
      ViewValid(r) && r.focus == v.focus && r.root == v.root && r.shown == v.shown
      && r.stopped == v.stopped
  {
    SelectionKeepsLayout(v, v.items[Clamp(index, |v.items|)], env);
  }

  /** The input capture keeps the invariant. */
  lemma CaptureValid(v: View, key: Key, env: Environment)
    requires ViewValid(v)
    ensures ViewValid(AfterCapture(v, key, env).0)
  {
    if key.Rune? && key.ch == 'j' && v.focus == PortList && v.current < |v.items| - 1 {
      SetCurrentValid(v, v.current + 1, env);
    } else if key.Rune? && key.ch == 'k' && v.focus == PortList && v.current > 0 {
      SetCurrentValid(v, v.current - 1, env);
    }
  }

  /** Every event keeps the dashboard's invariant. */
  lemma AfterKeyValid(v: View, key: Key, env: Environment)
    requires ViewValid(v)
    ensures ViewValid(AfterKey(v, key, env))
  {
    CaptureValid(v, key, env);
  }

  /** The launch state is valid; the first port is selected and looked up
      when there is one, and otherwise nothing but the scan has run. */
  lemma LaunchSelectsFirstPort(items: seq<string>, env: Environment)
    requires |items| >= 1
    ensures var r := Launch(items, env);
      && ViewValid(r)
      && r.focus == PortList && r.root == MainLayout && !r.stopped && r.clipboardWrites == []
      && (|items| >= 2 ==> r.current == 1 && r.lsofText == ShownOutput(env.lsof)
                           && r.commands[..2] == [ScanCommand(), InspectCommand(items[1])])
      && (|items| == 1 ==> r.current == 0 && r.commands == [ScanCommand()] && r.lsofText == "")
  {
  }

  /** The capture swallows exactly `h` and `l`. */
  lemma CaptureConsumesFocusKeys(v: View, key: Key, env: Environment)
    requires ViewValid(v)
    ensures !AfterCapture(v, key, env).1 <==> key == Rune('h') || key == Rune('l')
  {
  }

  /** The docker pane is filled from `docker ps` exactly when the `lsof`
      answer spells `docker` in some mix of cases; otherwise it says so, and
      the container lookup does not run. */
  lemma SelectionRunsDockerOnlyForDocker(v: View, port: string, env: Environment)
    ensures var r := AfterSelection(v, port, env);
      && r.lsofText == ShownOutput(env.lsof)
      && |r.commands| > |v.commands|
      && r.commands[..|v.commands|] == v.commands
      && ((exists i: nat :: DockerAt(ShownOutput(env.lsof), i)) ==>
            r.commands[|v.commands|..] == [InspectCommand(port), DockerCommand(port)]
            && r.dockerText == ShownOutput(env.docker))
      && (!(exists i: nat :: DockerAt(ShownOutput(env.lsof), i)) ==>
            r.commands[|v.commands|..] == [InspectCommand(port)] && r.dockerText == NotDocker)
  {
    var r := AfterSelection(v, port, env);
    if IsDockerProcess(ShownOutput(env.lsof)) {
      assert r.commands == v.commands + [InspectCommand(port), DockerCommand(port)];
    } else {
      assert r.commands == v.commands + [InspectCommand(port)];
    }
  }

  /** `j` on the list selects the next entry, unless the last one is
      selected, and looks it up exactly when the selection moves; from any
      other widget it moves the focus to the docker pane. */
  lemma DownKey(v: View, env: Environment)
    requires ViewValid(v) && !v.stopped
    ensures var r := AfterKey(v, Rune('j'), env);
      && (v.focus == PortList && v.current < |v.items| - 1 ==>
            r == AfterSelection(v, v.items[v.current + 1], env).(current := v.current + 1))
      && (v.focus == PortList && v.current == |v.items| - 1 ==> r == v)
      && (v.focus != PortList ==> r == v.(focus := DockerPane))
  {
  }

  /** `k` on the list selects the previous entry, unless the first one (the
      blank entry) is selected; from any other widget it moves the focus to
      the lsof pane. */
  lemma UpKey(v: View, env: Environment)
    requires ViewValid(v) && !v.stopped
    ensures var r := AfterKey(v, Rune('k'), env);
      && (v.focus == PortList && v.current > 0 ==>
            r == AfterSelection(v, v.items[v.current - 1], env).(current := v.current - 1))
      && (v.focus == PortList && v.current == 0 ==> r == v)
      && (v.focus != PortList ==> r == v.(focus := LsofPane))
  {
  }

  /** `h` and `l` only move the focus, even over a modal, which then stays
      on screen. */
  lemma FocusKeys(v: View, env: Environment)
    requires ViewValid(v) && !v.stopped
    ensures AfterKey(v, Rune('h'), env) == v.(focus := PortList)
    ensures AfterKey(v, Rune('l'), env) == v.(focus := LsofPane)
  {
  }

  /** `c` on a text view (an output pane, or the text of the modal on
      screen) hands the view's text, without its colour codes, to the
      clipboard, and opens a new modal reporting the outcome. What is copied
      is the text with whole colour codes deleted; in particular every
      character that cannot belong to one is copied, in order. */
  lemma CopyKey(v: View, env: Environment)
    requires ViewValid(v) && !v.stopped
    requires v.focus != PortList
    ensures FocusedText(v.focus, v.root, v.lsofText, v.dockerText).Some?
    ensures var text := FocusedText(v.focus, v.root, v.lsofText, v.dockerText).value;
      var r := AfterKey(v, Rune('c'), env);
      && (v.focus == LsofPane ==> text == v.lsofText)
      && (v.focus == DockerPane ==> text == v.dockerText)
      && (v.focus == ModalText ==> text == v.root.text)
      && r.clipboardWrites == v.clipboardWrites + [StripAnsiCodes(text)]
      && SgrDeletion(text, r.clipboardWrites[|v.clipboardWrites|])
      && Others(r.clipboardWrites[|v.clipboardWrites|]) == Others(text)
      && r.focus == ModalText && r.root.Modal? && r.root != v.root && r.shown == v.shown + 1
      && (env.clipboard.Written? ==> r.root.text == CopiedText && r.root.title == CopiedTitle)
      && (env.clipboard.WriteFailed? ==>
            r.root.text == CopyErrorText(env.clipboard.err) && r.root.title == CopyErrorTitle)
      && r.items == v.items && r.current == v.current && r.commands == v.commands
      && r.lsofText == v.lsofText && r.dockerText == v.dockerText
  {
    var text := FocusedText(v.focus, v.root, v.lsofText, v.dockerText).value;
    var stripped := StripAnsiCodes(text);
    assert AfterCapture(v, Rune('c'), env).0 == AfterCopy(v, stripped, env.clipboard);
    assert AfterKey(v, Rune('c'), env) == AfterCopy(v, stripped, env.clipboard);
    StripKeepsOthers(text);
    StripIsSgrDeletion(text);
  }

  /** `c` while the list has the focus does nothing. */
  lemma CopyFromListDoesNothing(v: View, env: Environment)
    requires ViewValid(v) && v.focus == PortList
    ensures AfterKey(v, Rune('c'), env) == v
  {
  }

  /** A modal whose text view has lost the focus (after `h`, `j`, `k` or
      `l`) stays on screen whatever key comes: the modal's own capture never
      runs again. Only `c` on an output pane replaces it, by a new modal that
      has the focus. */
  lemma ModalStaysWithoutFocus(v: View, key: Key, env: Environment)
    requires ViewValid(v) && !v.stopped && v.root.Modal? && v.focus != ModalText
    ensures var r := AfterKey(v, key, env);
      || r.root == v.root
      || (key == Rune('c') && v.focus != PortList && r.root.Modal? && r.root != v.root && r.focus == ModalText)
  {
  }

  /** Ctrl-C stops the application and changes nothing else: the capture
      lets it through, and it reaches no root, so a modal stays on screen. */
  lemma CtrlCKey(v: View, env: Environment)
    requires ViewValid(v) && !v.stopped
    ensures AfterKey(v, CtrlC, env) == v.(stopped := true)
  {
  }

  /** `q` stops the application; its other effect is that the key, passed
      on, also closes a modal that has the focus. */
  lemma QuitKey(v: View, env: Environment)
    requires ViewValid(v) && !v.stopped
    ensures var r := AfterKey(v, Rune('q'), env);
      && r.stopped
      && (v.focus != ModalText ==> r == v.(stopped := true))
      && (v.focus == ModalText ==> r == v.(stopped := true, root := MainLayout, focus := PortList))
  {
  }

  /** While a modal has the focus, a key closes it exactly when the input
      capture neither moves the focus (`h`, `j`, `k`, `l`) nor opens a new
      modal (`c`); closing it puts the focus on the list and changes nothing
      else but the stop flag. */
  lemma ModalClosesOnOtherKeys(v: View, key: Key, env: Environment)
    requires ViewValid(v) && !v.stopped && v.focus == ModalText
    ensures var r := AfterKey(v, key, env);
      && (r.root == MainLayout <==> key !in {Rune('h'), Rune('j'), Rune('k'), Rune('l'), Rune('c'), CtrlC})
      && (r.root == MainLayout ==>
            r == v.(root := MainLayout, focus := PortList, stopped := key == Rune('q')))
  {
  }

  // ---------------------------------------------------------------------------
  // The widgets, updated in place

  /** The running program: the list's entries are fixed once it is filled;
      the selection, the focus, the root and the panes' texts change as keys
      arrive. */
  class App {
    // Only the constructor and `HandleKey` are entry points; the other
    // methods are the steps they take, so only those two promise `Valid()`.
    const items: seq<string>
    var current: int
    var focus: Pane
    var root: Root
    var shown: nat
    var lsofText: string
    var dockerText: string
    var stopped: bool
    ghost var commands: seq<seq<string>>
    ghost var clipboardWrites: seq<string>

    ghost function Snapshot(): View
      reads this
    {
      View(items, current, focus, root, shown, lsofText, dockerText, stopped, commands, clipboardWrites)
    }

    ghost predicate Valid()
      reads this
    {
      ViewValid(Snapshot())
    }

    /** Fills the list with a blank entry followed by the ports, and selects
        the entry after the blank one. */
    constructor (scan: CommandResult, env: Environment)
      requires scan.Succeeded? ==> AllLinesParse(Split(scan.stdout, '\n'))
      ensures Valid()
      ensures |items| >= 1 && items[0] == ""
      ensures scan.Failed? ==> items == ["", FetchErrorPrefix + scan.err]
      ensures scan.Succeeded? ==> IsPortListing(items[1..], ListeningPorts(Split(scan.stdout, '\n')))
      ensures Snapshot() == Launch(items, env)
    {
      var ports := GetPorts(scan);
      items := [""] + ports;
      current := 0;
      focus := PortList;
      root := MainLayout;
      shown := 0;
      lsofText := "";
      dockerText := "";
      stopped := false;
      commands := [ScanCommand()];
      clipboardWrites := [];
      new;
      assert items[1..] == ports;
      SetCurrentItem(1, env);
    }

    /** The list's changed callback. */
    method SelectionChanged(mainText: string, env: Environment)
      modifies this
      ensures Snapshot() == AfterSelection(old(Snapshot()), mainText, env)
    {
      var lsofOut := ShownOutput(env.lsof);
      commands := commands + [InspectCommand(mainText)];
      lsofText := lsofOut;
      if IsDockerProcess(lsofOut) {
        commands := commands + [DockerCommand(mainText)];
        dockerText := ShownOutput(env.docker);
      } else {
        dockerText := NotDocker;
      }
    }

    /** The list's `SetCurrentItem`. */
    method SetCurrentItem(index: int, env: Environment)
      requires |items| >= 1
      modifies this
      ensures Snapshot() == AfterSetCurrent(old(Snapshot()), index, env)
    {
      var i := Clamp(index, |items|);
      if i != current {
        SelectionChanged(items[i], env);
      }
      current := i;
    }

    /** `showModal`. */
    method ShowModal(text: string, title: string)
      modifies this
      ensures Snapshot() == AfterModal(old(Snapshot()), text, title)
    {
      root := Modal(shown, text, title);
      shown := shown + 1;
      focus := ModalText;
    }

    /** The modal text view's input capture: it consumes the key. */
    method ModalCapture() returns (passed: bool)
      modifies this
      ensures !passed
      ensures Snapshot() == AfterDismiss(old(Snapshot()))
    {
      root := MainLayout;
      focus := PortList;
      passed := false;
    }

    /** The application's input capture. */
    method InputCapture(key: Key, env: Environment) returns (passed: bool)
      requires Valid()
      modifies this
      ensures (Snapshot(), passed) == AfterCapture(old(Snapshot()), key, env)
    {
      passed := true;
      if !key.Rune? {
        return;
      }
      match key.ch {
        case 'h' =>
          focus := PortList;
          passed := false;
        case 'l' =>
          focus := LsofPane;
          passed := false;
        case 'j' =>
          if focus == PortList {
            if current < |items| - 1 {
              SetCurrentItem(current + 1, env);
            }
          } else {
            focus := DockerPane;
          }
        case 'k' =>
          if focus == PortList {
            if current > 0 {
              SetCurrentItem(current - 1, env);
            }
          } else {
            focus := LsofPane;
          }
        case 'q' =>
          stopped := true;
        case 'c' =>
          var text := FocusedText(focus, root, lsofText, dockerText);
          if text.Some? {
            var stripped := StripAnsiCodes(text.value);
            clipboardWrites := clipboardWrites + [stripped];
            match env.clipboard {
              case WriteFailed(err) => ShowModal(CopyErrorText(err), CopyErrorTitle);
              case Written => ShowModal(CopiedText, CopiedTitle);
            }
          }
        case _ =>
      }
    }

    /** One key event: the application's capture, then the root that was on
        screen, if it still holds the focus. */
    method HandleKey(key: Key, env: Environment)
      requires Valid()
      modifies this
      ensures Valid()
      ensures Snapshot() == AfterKey(old(Snapshot()), key, env)
    {
      AfterKeyValid(Snapshot(), key, env);
      if stopped {
        return;
      }
      var before := root;
      var passed := InputCapture(key, env);
      if passed && key == CtrlC {
        stopped := true;
      } else if passed && before.Modal? && root == before && focus == ModalText {
        passed := ModalCapture();
      }
    }
  }
}
