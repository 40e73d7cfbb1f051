# hecto core in Dafny

A model of the core of *hecto*, a minimal full-screen terminal text editor
written in Rust. The core covers two parts:

- `editor.dfy`, module `Editor` (src/editor.rs). The `Editor` class holds the
  quit flag and the cursor. `ProcessKeypress` maps a key to "quit", "move the
  cursor" or "do nothing". `MoveCursor` clamps the cursor to the terminal
  using saturating unsigned arithmetic. `Run` is the refresh / check-quit /
  read-key loop. `DrawRows` and `DrawWelcomeMessage` compute the screen
  contents: `height - 1` rows of `~`, with a centred welcome banner on row
  `height / 3`, cut to the terminal width.
- `row.dfy`, module `Row` (src/row.rs). A `Row` holds a line of text as UTF-8
  bytes, plus its cached byte length. `Render(start, end)` clips a byte range
  to the text. When the clipped range would split a multi-byte character,
  it returns nothing instead of failing. Character boundaries and
  well-formed UTF-8 follow sections 3 and 4 of RFC 3629.

The terminal is a parameter, not a collaborator:

- its size is a `Size(width, height)` of unsigned 16-bit values;
- a key press is a `Key` value, and the keys typed in a session are a finite
  sequence;
- what a refresh paints is a returned `Frame`. A frame holds the printed
  lines and the last cell the refresh explicitly moves the cursor to. When
  quitting, that cell is the origin; the line printed after that move then
  carries the cursor down a line. Each line is what
  one `println!` writes before its newline, so the lines keep the `\r` the
  source prints.

The build-time version string is a parameter of type `AsciiString`. Cargo
package versions are ASCII, so a string's byte length and its character
count agree.

The state machine is specified by pure functions:

- `Moved` says where `move_cursor` puts the cursor.
- `Step` is the effect of `process_keypress`.
- `Session` is the sequence of states that `run` refreshes the screen in.

The class methods are proved against these functions, and the lemmas state
the properties of the functions. `draw_rows` draws the banner on row
`height / 3` at every refresh (src/editor.rs:110-112), and so does the model.

## Model

| member | source | states |
|---|---|---|
| Editor.Moved | src/editor.rs:70-96 | a cursor inside the viewport `[0, width⊖1] × [0, height⊖1]` stays inside after any key; a key other than h/j/k/l/PageUp/PageDown/Home/End leaves it unchanged; h, l, Home and End change only x; j, k, PageUp and PageDown change only y |
| Editor.EdgeMovesStay | src/editor.rs:76-87 | `k` at y = 0, `h` at x = 0, `j` at y ≥ height⊖1 and `l` at x ≥ width⊖1 leave the cursor where it is |
| Editor.JumpKeys | src/editor.rs:88-91 | PageUp sets y to 0, PageDown sets y to height⊖1, Home sets x to 0, End sets x to width⊖1; the other coordinate is kept |
| Editor.StepKeysClamp | src/editor.rs:76-87 | inside the viewport, k/j/h/l move one cell and are clamped at 0 and at height⊖1 / width⊖1 |
| Editor.Step | src/editor.rs:54-69 | the quit flag is set afterwards iff it was set before or the key is Ctrl-q, so it is never reset; Ctrl-q leaves the cursor alone; a movement key moves the cursor as `Moved` does and keeps the flag; a key that is neither Ctrl-q nor a movement key changes nothing; the viewport bound is kept |
| Editor.Session | src/editor.rs:19-31 | the run loop refreshes in the start state first; each later state is the previous one after the next key, read only while the flag is clear; the loop ends once the flag is set or the input is used up |
| Editor.SessionStaysInViewport | src/editor.rs:72-95 | a cursor that starts in the viewport is in the viewport at every refresh of a session, whatever keys are typed |
| Editor.SessionWithoutQuitKey | src/editor.rs:19-31 | without Ctrl-q in the input every key is read and the editor is still running at the end |
| Editor.QuitKeyEndsSession | src/editor.rs:19-31 | with the first Ctrl-q at index i, the refresh after it is the last one; that refresh sees the flag set and the cursor unmoved; the keys after index i are never read |
| Editor.QuittingReadsNothing | src/editor.rs:24-26 | once the quit flag is set, the loop paints one more frame and reads no key |
| Editor.JumpScenario | src/editor.rs:88-91 | on 80×24 from (0,0), PageDown, End, Home put the cursor at (0,23), (79,23), (0,23) |
| Editor.WelcomeBanner | src/editor.rs:97-106 | the banner is `~` followed by spaces and then the message, cut to the width; it never exceeds the width; its length is min(width, len + max(padding, 1)) with padding = (width ⊖ len) / 2 and len counting the trailing `\r`; it starts with `~` when width ≥ 1 |
| Editor.NarrowBannerScenario | src/editor.rs:98-104 | with a 30-character message on a width of 10, the padding is 0 and the banner is 10 characters long, starting with `~` |
| Editor.DrawWelcomeMessage | src/editor.rs:97-106 | the line printed is the banner plus `\r`, at most width + 1 characters |
| Editor.DrawRows | src/editor.rs:107-117 | exactly height − 1 lines; the line at index height / 3 is the banner line and every other line is `~\r` |
| Editor.Editor.Default | src/editor.rs:33-39 | a new editor is running, with the cursor at (0,0) |
| Editor.Editor.RefreshScreen | src/editor.rs:41-52 | when quitting, the only line painted is `Goodbye.\r` and the last explicit cursor move is to the origin, made before that line is printed; otherwise the frame holds the height − 1 row lines and the cursor is placed at the editor's cursor |
| Editor.Editor.ProcessKeypress | src/editor.rs:54-69 | the new quit flag and cursor are `Step` of the old ones |
| Editor.Editor.MoveCursor | src/editor.rs:70-96 | the cursor becomes `Moved` of the old cursor, in one assignment; the quit flag is untouched |
| Editor.Editor.Run | src/editor.rs:19-31 | the frames painted are, one for one, what the states of `Session` show; the final state is the last one of `Session` |
| Row.Row.From | src/row.rs:8-17 | the row holds the slice, and the cached length equals its byte length |
| Row.Row.UpdateLen | src/row.rs:31-33 | the cached length becomes the text's byte length; the text is unchanged |
| Row.Row.Render | src/row.rs:20-24 | total for every start and end; with e = min(end, len) and s = min(start, e), the result is `text[s..e]` when both are character boundaries and empty otherwise; its length is at most e − s ≤ len; empty when start ≥ e; the whole text for (0, n ≥ len); well-formed UTF-8 when the text is |
| Row.Row.Len | src/row.rs:25-27 | agrees with the cached length; counts bytes, so the number of characters is at most it, and equal only for ASCII text |
| Row.Row.IsEmpty | src/row.rs:28-30 | holds exactly when `Len()` is 0, and exactly when rendering the whole row gives nothing |
| Row.SplitAtBoundary | src/row.rs:20-24 | cutting well-formed UTF-8 at a character boundary leaves well-formed UTF-8 on both sides |
| Row.SliceAtBoundaries | src/row.rs:20-24 | the bytes between two character boundaries of well-formed UTF-8 are well-formed UTF-8 |
| Row.LenCountsBytes | src/row.rs:25-27 | for well-formed UTF-8 the character count is at most the byte count, with equality exactly when every byte is ASCII |

## Left out

- Terminal I/O is not modelled: raw mode, `read_key`, the escape sequences
  for clearing the screen and the line, `Goto`, and `flush`. Only the printed
  lines and the last cell each refresh explicitly moves the cursor to are
  modelled. The `Terminal` module
  is not part of this model.
- `die` is not modelled: a failed key read or flush clears the screen and
  panics, and `Run` assumes every terminal operation succeeds.
- The diagnostic line that `process_keypress` prints for an unhandled key is
  not modelled. It is output only and changes no state.
- `Editor.Editor.Default` does not model the terminal it creates, nor the
  panic when that fails.
- `Editor.Editor.Run` takes one terminal size for the whole session. The source
  asks the terminal for its size at every refresh, so a resize during a
  session is not modelled.
- `Editor.Editor.Run` stops when the key sequence runs out. The source would
  block on the next read instead.
- `Editor.DrawRows` requires a height of at least 1, and so do
  `Editor.Editor.RefreshScreen` and `Editor.Editor.Run` whenever the editor
  is not quitting. At height 0, the `u16` expression `height - 1` overflows:
  it panics in a debug build and wraps to 65535 in a release build. A
  quitting refresh never evaluates it and is modelled at every height.
- `usize` is taken to be 64 bits wide.
- The version string is a parameter restricted to ASCII. The source uses the
  package version that Cargo fills in at build time.
- A row's text is a byte sequence. `Row.Row.From` requires well-formed UTF-8,
  which the source's `&str` argument guarantees by its type.
