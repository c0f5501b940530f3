# port-monitor in Dafny

port-monitor is a terminal dashboard for the TCP ports a host listens on.
At start it runs `lsof -iTCP -sTCP:LISTEN` and keeps the ports bound to every
interface. It drops duplicates, orders them by their `strconv.Atoi` value and
lists them under a blank first entry. Selecting a port runs `lsof -i :<port>`
for the upper right pane. When that output mentions `docker` in any case, it
also runs `docker ps -a --filter publish=<port>` for the lower right pane.

The keys are:
- `h` and `l` move the focus.
- `j` and `k` move the selection or the focus.
- `q` quits.
- `c` copies the focused pane's text, without colour codes, to the clipboard.

A modal reports the copy's outcome and closes on the next key that reaches it.

The model, module by module:

- `Strings`: the parts of Go's `strings` package the program calls. These are `Contains`, `ToLower`, `Split` with a one-character separator, and `Fields`. `Fields` is characterised by two lemmas: every line is its fields spread over runs of white space, and any words so spread are recovered.
- `Strconv`: `strconv.Atoi` on a 64-bit platform, the sort key.
  - Text whose first character after an optional sign is not a digit gives 0.
  - A `+` sign changes nothing, and a `-` sign negates.
  - Overflow is clamped to the nearest 64-bit bound.
  - It is proved against decimal formatting.
- `Ansi`: `stripAnsiCodes`, the replacement of every leftmost match of `\x1b\[[0-9;]*m`, written as a left-to-right scanner.
- `Docker`: `isDockerProcess`.
- `Commands`: the argument vectors of the three external commands, and how a failed command is shown (`Error: ` and the error).
- `Ports`: `getPorts`, as the source's two loops and an in-place sort over an array.
- `Dashboard`: the UI state machine.
  - Pure functions (`AfterSelection`, `AfterCapture`, `AfterKey`, …) say what each handler does to the state.
  - A class `App` updates the widgets' state in place, and each of its methods is proved to follow the corresponding function.

Running a command or writing to the clipboard is not modelled. Each event receives the outcome from outside as an `Environment`: the `lsof` lookup's result, the `docker` lookup's result and the clipboard's result. Two ghost logs record what the program hands out:
- `commands`: every argument vector run.
- `clipboardWrites`: every text given to the clipboard.

Behaviour of the UI library that the program depends on, and which this model assumes:
- `SetCurrentItem` clamps its index to the list (a negative index counts from the end). It calls the changed callback only when the index changes. So at start, with no port, index 1 becomes 0 and no lookup runs.
- After the three-pane layout becomes the root, the focus is on the port list. The layout marks the list as its focused item (main.go:44). The same holds when the modal is closed.
- A key event goes first to the application's input capture. If that capture passes the event on, it goes to the root that was on screen before the capture ran, and only if that root still holds the focus. So while a modal is shown and its text view has the focus:
  - `h`, `l`, `j` and `k` move the focus behind the modal, which stays on screen.
  - `c` copies the modal's own text and replaces the modal with a new one.
  - Every other key closes the modal and is consumed, except Ctrl-C.
- Once the focus is behind a modal, the modal no longer holds it, so its capture never runs and no key closes it.
- Ctrl-C, once the input capture has passed it on, stops the application and goes to no root.
- Once `Stop` has run, no further key reaches the handlers.
- A text view's `GetText(false)` returns exactly the text last given to `SetText`.

What the code does where its own comments, or what a reader might expect, say otherwise:
- The comment on `getPorts` (main.go:50) says the ports are sorted numerically. `lsof` is run without `-P`, so it prints service names such as `http` for well-known ports. `Atoi` reads those as 0, and they sort before the numbers. `Ports.NumericPortsIncrease` proves a strictly increasing order only when every port is a plain numeral.
- The comment in the modal's handler (main.go:208) says any key dismisses it. Under the dispatch above, while the modal's text view has the focus, `h`, `j`, `k`, `l` and `c` do not close it; every other key does, except Ctrl-C, which stops the program and leaves the modal on screen (`Dashboard.ModalClosesOnOtherKeys`, `Dashboard.CtrlCKey`).
- After `h`, `j`, `k` or `l` has moved the focus behind a modal, the modal stays on screen for good: no key closes it. Only `c` on an output pane replaces it, with a new modal that has the focus (`Dashboard.ModalStaysWithoutFocus`).
- The selection handler has no guard. Selecting the blank first entry runs `lsof -i :` with the empty text. When the scan fails, the list is the blank entry and the error message, and the error message is selected at start and looked up as if it were a port.
- Closing the modal puts the focus on the port list, whichever pane had it before the modal opened.
- `c` with the list focused does nothing at all: no clipboard write and no modal.

## Model

| member | source | states |
|---|---|---|
| Strings.Contains | main.go:61 | `strings.Contains(s, sub)` holds exactly when `sub` occurs in `s` at some index |
| Strings.ContainsChar | main.go:61 | a line contains `"*"` exactly when the character `*` is one of its characters |
| Strings.Split | main.go:58 | `strings.Split` yields at least one piece; no piece holds the separator; joining the pieces gives the input back; there is one piece exactly when the separator does not occur |
| Strings.SplitJoin | main.go:58 | splitting undoes joining for at least one piece, when no piece holds the separator |
| Strings.SplitSecondPiece | main.go:64 | piece 1 of `head:p:…` is `p`, the text between the first and second `:` |
| Strings.Fields | main.go:62 | every field of `strings.Fields` is non-empty and free of white space, and the fields laid end to end are the input's non-space characters |
| Strings.FieldsOfSpread | main.go:62 | words laid out with runs of white space between them (and optionally before and after) are recovered by `Fields`, however wide the runs |
| Strings.FieldsLayout | main.go:62 | every line is its fields spread over runs of white space, so the fields are exactly the maximal runs of non-space characters |
| Strings.ToLower | main.go:94 | the result has the input's length and no ASCII capital; each capital becomes its small letter and every other character is kept |
| Strconv.Atoi | main.go:74-75 | `Atoi` stays within the 64-bit range, and text that is not an optionally signed numeral (of fewer than 19 characters) reads as 0 |
| Strconv.AtoiOfNonNumeral | main.go:74-75 | text whose first character after an optional sign is not a digit reads as 0, whatever its length |
| Strconv.AtoiClampsOverflow | main.go:74-75 | a numeral too large for a 64-bit `int` reads as 2^63 - 1, and after a minus sign as -2^63 |
| Strconv.AtoiOfNegative | main.go:74-75 | a minus sign before a numeral that fits negates its value |
| Strconv.AtoiPlusSign | main.go:74-75 | a plus sign before text that does not start with a sign reads the same as the text alone |
| Strconv.ParseDigits | main.go:74-75 | the digit loop reaches the numeral's decimal value when that fits in 64 bits |
| Strconv.AtoiOfDigits | main.go:74-75 | a string of digits whose value fits in an `int` reads as that value |
| Strconv.AtoiItoa | main.go:74-75 | `Atoi(Itoa(n)) == n` for every non-negative 64-bit `n` |
| Strconv.AtoiInjective | main.go:73-77 | two different canonical numerals that fit in a 64-bit `int` have different sort keys |
| Ansi.SgrLength | main.go:110 | the length of the match at the front of the text, which is then a match of the pattern |
| Ansi.SgrMatchUnique | main.go:110 | a match at the front is unique, so the leftmost match is well defined |
| Ansi.StripAnsiCodes | main.go:109-111 | the result is never longer than the input |
| Ansi.StripDropsLeadingSgr | main.go:111 | a match at the front is deleted and the rest scanned on its own |
| Ansi.StripShortens | main.go:111 | when the text holds a match the result is strictly shorter |
| Ansi.StripKeepsSgrFree | main.go:111 | text without a match comes back unchanged |
| Ansi.StripUnchangedIff | main.go:109-111 | the result equals the input exactly when the input holds no match |
| Ansi.StripWithoutEsc | main.go:109-111 | text without an escape character comes back unchanged |
| Ansi.StripIsSgrDeletion | main.go:109-111 | only whole matches are deleted: every other character of the input is kept, in order |
| Ansi.StripBeforeEsc | main.go:111 | no match spans a point where an escape character begins, so the text on each side of it is stripped independently |
| Ansi.StripDeletesEveryMatch | main.go:111 | every match in the input is deleted: whatever surrounds it, the match leaves nothing and the text before and after it is stripped on its own |
| Ansi.StripKeepsOthers | main.go:109-111 | every character outside the pattern's alphabet is kept in order, and no character is added |
| Ansi.StripIsNotIdempotent | main.go:111 | one pass can leave a match behind: stripping a stripped text can change it again |
| Commands.ShownOutput | main.go:82-90 | a pane shows a lookup's output, or `Error: ` followed by the error when the command fails |
| Commands.ScanCommand | main.go:52 | the scan runs `lsof` with two options |
| Commands.InspectCommand | main.go:83 | the process lookup runs `lsof` with the port after a `:` |
| Commands.DockerCommand | main.go:99 | the container lookup runs `docker` with `publish=` and the port as its last argument |
| Commands.CommandsIdentifyPort | main.go:83-99 | the command log tells the lookups apart and names the port each ran for |
| Docker.IsDockerProcess | main.go:93-95 | `isDockerProcess(s)` holds exactly when `s` spells `docker` at some index in any mix of cases; never for the empty text |
| Ports.LinePort | main.go:61-66 | a line contributes a port exactly when it contains `*` and has more than eight fields; the port holds no `:` |
| Ports.LinePortIsSecondPiece | main.go:61-66 | a wildcard line with more than eight fields whose ninth field is `head:port…` contributes `port` |
| Ports.ListeningPorts | main.go:58-68 | a port is collected exactly when some line of the output contributes it |
| Ports.CollectPorts | main.go:59-68 | the first loop fills its map with exactly the collected ports |
| Ports.KeysOf | main.go:69-72 | the second loop appends every key once and nothing else |
| Ports.SwapDown | main.go:73-77 | exchanging neighbours keeps the elements |
| Ports.InsertIntoPrefix | main.go:73-77 | one insertion step extends the sorted prefix by one and keeps the elements |
| Ports.SortByPort | main.go:73-77 | the sort leaves the slice ordered by non-decreasing `Atoi` value and a permutation of what it was |
| Ports.GetPorts | main.go:51-79 | a failed scan gives exactly `Error fetching ports: ` and the error; otherwise every collected port exactly once, nothing else, in non-decreasing `Atoi` order |
| Ports.PortListingSize | main.go:59-78 | the listing is exactly as long as the set of distinct ports |
| Ports.NumericPortsIncrease | main.go:73-77 | when every port is a plain 64-bit numeral, the listing is strictly increasing |
| Dashboard.Clamp | main.go:132 | the index `SetCurrentItem` settles on lies within the list and is the requested one when that is in range |
| Dashboard.FocusedText | main.go:166-168 | there is text to copy exactly when a text view (an output pane or the modal's) has the focus |
| Dashboard.LaunchSelectsFirstPort | main.go:115-132 | at start the list has the focus and the first port is selected and looked up; with no port the selection stays on the blank entry and only the scan has run |
| Dashboard.SelectionRunsDockerOnlyForDocker | main.go:122-131 | a selection shows the `lsof` answer; `docker ps` runs and fills the lower pane exactly when that answer spells `docker` in some case, otherwise the pane shows `Not a Docker process` |
| Dashboard.CaptureConsumesFocusKeys | main.go:139-177 | the input capture swallows exactly `h` and `l` and passes every other key on |
| Dashboard.DownKey | main.go:145-153 | on the list `j` selects the next entry and looks it up, and does nothing on the last entry; elsewhere it focuses the docker pane |
| Dashboard.UpKey | main.go:154-162 | on the list `k` selects the previous entry and looks it up, and does nothing on the first entry; elsewhere it focuses the lsof pane |
| Dashboard.FocusKeys | main.go:139-144 | `h` focuses the list and `l` the lsof pane, and nothing else changes |
| Dashboard.CtrlCKey | main.go:134-177 | the capture lets Ctrl-C through, and it stops the application and changes nothing else |
| Dashboard.QuitKey | main.go:163-164 | `q` stops the application and changes nothing else, beyond closing a focused modal |
| Dashboard.CopyKey | main.go:165-174 | `c` on a text view (either output pane, or the text of the modal on screen) writes that text with its colour codes deleted to the clipboard and opens a new modal with the success or error text and title |
| Dashboard.CopyFromListDoesNothing | main.go:165-167 | `c` with the list focused changes nothing |
| Dashboard.ModalStaysWithoutFocus | main.go:186-212 | once the focus is behind a modal, no key closes it; only `c` on an output pane replaces it with a new, focused modal |
| Dashboard.ModalClosesOnOtherKeys | main.go:186-212 | a focused modal closes exactly on keys other than `h`, `j`, `k`, `l`, `c` and Ctrl-C, and closing it focuses the list and changes nothing else |
| Dashboard.AfterKeyValid | main.go:135-212 | every key keeps the selection inside the list and the modal focus consistent with the root |
| Dashboard.App.constructor | main.go:115-132 | the list is a blank entry followed by the port listing (or the error entry), and the state is the launch state |
| Dashboard.App.SelectionChanged | main.go:122-131 | the changed callback updates both panes and the command log as `AfterSelection` says |
| Dashboard.App.SetCurrentItem | main.go:132 | moves the selection to the clamped index, running the callback when the index changes |
| Dashboard.App.ShowModal | main.go:186-206 | a new modal becomes the root and takes the focus |
| Dashboard.App.ModalCapture | main.go:207-211 | the modal's capture restores the three-pane layout and swallows the key |
| Dashboard.App.InputCapture | main.go:135-178 | the application's capture changes the state and passes the key on as `AfterCapture` says |
| Dashboard.App.HandleKey | main.go:135-212 | one key event changes the state as `AfterKey` says and keeps the invariant |

## Left out

- Running `lsof` and `docker` and writing to the clipboard: their outcomes are parameters (`Environment`, and the scan's `CommandResult`). Go's `%v` rendering of an error is taken as the error text.
- Layout, colours, borders, titles, modal centring and drawing (main.go:19-48, 187-205): these affect only the rendering.
- The widgets' own key handling is not modelled. This covers the list's arrow and Enter keys, and text view scrolling on `j`/`k`. A key that reaches the three-pane layout changes nothing in the model.
- Stopping the terminal on `q` is modelled only as a flag that ends key handling. The `panic` when the application fails to start (main.go:181-183) is not modelled.
- Ports.GetPorts: requires every wildcard line with more than eight fields to hold a `:` in its ninth field; on other output the source indexes past the end of the split and panics, which is not modelled.
- Docker.IsDockerProcess: `strings.ToLower` is modelled on ASCII letters only. Letters such as the Kelvin sign, which Go lowers to `k`, are not folded.
- Strings.Fields: characters are Unicode code points; invalid UTF-8 in the command output is not modelled.
- Ports.SortByPort: Go's `sort.Slice` is pattern-defeating quicksort and is not stable. The model uses an insertion sort and proves only what any correct sort gives: sorted by `Atoi` and a permutation. The order of ports with equal `Atoi` values (service names) is therefore left open, as in Go.
- Map iteration order in Go is unspecified: `Ports.KeysOf` picks keys in an arbitrary order.
- Strconv.Atoi: modelled for a 64-bit `int`; a 32-bit platform is not modelled.
- Concurrency: the program runs on the single UI event loop and has none.
