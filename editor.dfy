/** The cursor, key handling and screen painting of the editor (src/editor.rs).

    The terminal is not modelled: its size is passed in as a `Size`, a key press
    is a `Key` value, the keys typed during a session are a finite sequence, and
    what a refresh paints is returned as a `Frame` of printed lines instead of
    being written to the terminal. */
module Editor {

  type U8 = n: nat | n < 0x100

  type U16 = n: nat | n < 0x1_0000

  const USIZE_MAX: nat := 0xFFFF_FFFF_FFFF_FFFF

  type Usize = n: nat | n <= USIZE_MAX

  /** `saturating_sub` on unsigned integers: never goes below zero. */
  function SatSub(a: nat, b: nat): (r: nat)
    ensures r <= a
    ensures a >= b ==> r + b == a
    ensures a < b ==> r == 0
  {
    if a >= b then a - b else 0
  }

  /** `usize::saturating_add`: stops at the largest `usize`. */
  function SatAdd(a: Usize, b: Usize): (r: Usize)
    ensures a <= r && b <= r
    ensures a + b <= USIZE_MAX ==> r == a + b
  {
    if a + b <= USIZE_MAX then a + b else USIZE_MAX
  }

  /** `cmp::min` on unsigned integers. */
  function Min(a: nat, b: nat): (m: nat)
    ensures m <= a && m <= b && (m == a || m == b)
  {
    if a <= b then a else b
  }

  /** `cmp::max` on unsigned integers. */
  function Max(a: nat, b: nat): (m: nat)
    ensures m >= a && m >= b && (m == a || m == b)
  {
    if a >= b then a else b
  }

  /** The key events of the terminal library the editor reads. */
  datatype Key =
    | Backspace | Left | Right | Up | Down
    | Home | End | PageUp | PageDown
    | BackTab | Delete | Insert | Esc | Null
    | F(n: U8)
    | Char(c: char)
    | Alt(c: char)
    | Ctrl(c: char)

  /** A terminal's size in character cells. */
  datatype Size = Size(width: U16, height: U16)

  /** A 0-based cell: `x` is the column, `y` the row. */
  datatype Position = Position(x: Usize, y: Usize)

  const ORIGIN := Position(0, 0)

  /** The state `process_keypress` and `run` work on: the quit flag and the cursor. */
  datatype State = State(shouldQuit: bool, cursor: Position)

  /** What one refresh paints: the lines printed, each being what one
      `println!` writes before its newline, and the last cell the refresh
      explicitly moves the cursor to. Printing may move the cursor further;
      this cell is where it was last placed. */
  datatype Frame = Frame(lines: seq<string>, cursor: Position)

  /** A string of one-byte (ASCII) characters, so its `len()` is its length here. */
  type AsciiString = s: string | forall i :: 0 <= i < |s| ==> s[i] as int < 0x80 witness ""

  /** The keys `process_keypress` hands to `move_cursor`. */
  predicate IsMovementKey(key: Key) {
    key in {Char('h'), Char('j'), Char('k'), Char('l'), PageUp, PageDown, Home, End}
  }

  /** The last addressable column and row: the size less one, saturating. */
  function MaxX(size: Size): nat { SatSub(size.width, 1) }
  function MaxY(size: Size): nat { SatSub(size.height, 1) }

  predicate InViewport(p: Position, size: Size) {
    p.x <= MaxX(size) && p.y <= MaxY(size)
  }

  /** Where `move_cursor(key)` puts a cursor that is at `p`. */
  function Moved(p: Position, key: Key, size: Size): (q: Position)
    ensures InViewport(p, size) ==> InViewport(q, size)
    ensures !IsMovementKey(key) ==> q == p
    ensures key in {Char('h'), Char('l'), Home, End} ==> q.y == p.y
    ensures key in {Char('j'), Char('k'), PageUp, PageDown} ==> q.x == p.x
  {
    var height := MaxY(size);
    var width := MaxX(size);
    match key
    case Char('k') => Position(p.x, SatSub(p.y, 1))
    case Char('j') => if p.y < height then Position(p.x, SatAdd(p.y, 1)) else p
    case Char('h') => Position(SatSub(p.x, 1), p.y)
    case Char('l') => if p.x < width then Position(SatAdd(p.x, 1), p.y) else p
    case PageUp => Position(p.x, 0)
    case PageDown => Position(p.x, height)
    case Home => Position(0, p.y)
    case End => Position(width, p.y)
    case _ => p
  }

  /** The effect of `process_keypress` for one key. */
  function Step(s: State, key: Key, size: Size): (t: State)
    ensures t.shouldQuit <==> s.shouldQuit || key == Ctrl('q')
    ensures key == Ctrl('q') ==> t.cursor == s.cursor
    ensures !IsMovementKey(key) ==> t.cursor == s.cursor
    ensures IsMovementKey(key) ==> t == State(s.shouldQuit, Moved(s.cursor, key, size))
    ensures key != Ctrl('q') && !IsMovementKey(key) ==> t == s
    ensures InViewport(s.cursor, size) ==> InViewport(t.cursor, size)
  {
    if key == Ctrl('q') then State(true, s.cursor)
    else if IsMovementKey(key) then State(s.shouldQuit, Moved(s.cursor, key, size))
    else s
  }

  /** The states `run` refreshes the screen in, one per loop iteration, when
      the keys typed are `keys`: the loop stops after the refresh that finds
      the quit flag set, or when no key is left to read. */
  function Session(s: State, keys: seq<Key>, size: Size): (t: seq<State>)
    ensures 1 <= |t| <= |keys| + 1 && t[0] == s
    ensures forall i :: 0 <= i < |t| - 1 ==> !t[i].shouldQuit && t[i + 1] == Step(t[i], keys[i], size)
    ensures t[|t| - 1].shouldQuit || |t| == |keys| + 1
    decreases |keys|
  {
    if s.shouldQuit || keys == [] then [s]
    else
      var rest := Session(Step(s, keys[0], size), keys[1..], size);
      assert forall i :: 1 <= i < |rest| ==> keys[1..][i - 1] == keys[i];
      [s] + rest
  }

  /** The banner's text before centring: name, version and a carriage return. */
  function WelcomeMessage(version: AsciiString): string {
    "Hecto editor -- version " + version + "\r"
  }

  /** Half of the room the message leaves on a line `width` wide. */
  function Padding(width: U16, version: AsciiString): nat {
    SatSub(width, |WelcomeMessage(version)|) / 2
  }

  /** `" ".repeat(n)` */
  function Spaces(n: nat): (s: string)
    ensures |s| == n
    ensures forall i :: 0 <= i < n ==> s[i] == ' '
  {
    if n == 0 then "" else " " + Spaces(n - 1)
  }

  /** `String::truncate(n)`: keep at most the first `n` characters. */
  function Truncated(s: string, n: nat): (r: string)
    ensures |r| == Min(|s|, n)
    ensures r == s[..|r|]
  {
    if n < |s| then s[..n] else s
  }

  /** The centred welcome banner for a line `width` wide: a `~`, then spaces,
      then the message, cut to the width of the line. */
  function WelcomeBanner(width: U16, version: AsciiString): (b: string)
    ensures |b| == Min(width, |WelcomeMessage(version)| + Max(Padding(width, version), 1))
    ensures |b| <= width
    ensures width >= 1 ==> b[0] == '~'
    ensures forall i :: 1 <= i < Min(|b|, Padding(width, version)) ==> b[i] == ' '
    ensures var m := WelcomeMessage(version); var p := Max(Padding(width, version), 1);
            forall i :: p <= i < |b| ==> b[i] == m[i - p]
  {
    var message := WelcomeMessage(version);
    var padding := Padding(width, version);
    var padded := "~" + Spaces(SatSub(padding, 1)) + message;
    assert forall i :: 1 <= i < Max(padding, 1) ==> padded[i] == ' ';
    Truncated(padded, width)
  }

  /** The lines `draw_rows` prints on a screen of the given size. */
  predicate IsRowsScreen(lines: seq<string>, size: Size, version: AsciiString)
    requires size.height >= 1
  {
    |lines| == size.height - 1 &&
    forall r :: 0 <= r < |lines| ==>
      lines[r] == if r == size.height / 3 then WelcomeBanner(size.width, version) + "\r" else "~\r"
  }

  /** `f` is what a refresh in state `s` paints. Once the quit flag is set, it
      is the farewell line, with the cursor last placed at the origin before
      that line is printed. Otherwise it is the rows, with the cursor then
      placed at the editor's cursor. */
  predicate Shows(f: Frame, s: State, size: Size, version: AsciiString) {
    if s.shouldQuit then f == Frame(["Goodbye.\r"], ORIGIN)
    else size.height >= 1 && f.cursor == s.cursor && IsRowsScreen(f.lines, size, version)
  }

  /** `draw_welcome_message`: the line printed for the banner. */
  method DrawWelcomeMessage(width: U16, version: AsciiString) returns (line: string)
    ensures line == WelcomeBanner(width, version) + "\r"
    ensures |line| <= width + 1
  {
    var welcomeMessage := "Hecto editor -- version " + version + "\r";
    var len := |welcomeMessage|;
    var padding := SatSub(width, len) / 2;
    var spaces := Spaces(SatSub(padding, 1));
    welcomeMessage := "~" + spaces + welcomeMessage;
    if width < |welcomeMessage| {
      welcomeMessage := welcomeMessage[..width];
    }
    line := welcomeMessage + "\r";
  }

  /** `draw_rows`: one line for each of the first `height - 1` rows. */
  method DrawRows(size: Size, version: AsciiString) returns (lines: seq<string>)
    requires size.height >= 1
    ensures IsRowsScreen(lines, size, version)
  {
    var height := size.height;
    lines := [];
    for row := 0 to height - 1
      invariant |lines| == row
      invariant forall r :: 0 <= r < row ==>
        lines[r] == if r == height / 3 then WelcomeBanner(size.width, version) + "\r" else "~\r"
    {
      if row == height / 3 {
        var banner := DrawWelcomeMessage(size.width, version);
        lines := lines + [banner];
      } else {
        lines := lines + ["~\r"];
      }
    }
  }

  class Editor {
    var shouldQuit: bool
    var cursorPosition: Position

    function View(): State
      reads this
    {
      State(shouldQuit, cursorPosition)
    }

    /** `Editor::default()`: running, cursor in the top-left cell. */
    constructor Default()
      ensures View() == State(false, ORIGIN)
    {
      shouldQuit := false;
      cursorPosition := ORIGIN;
    }

    /** `refresh_screen`: paint the farewell or the rows; nothing changes. */
    method RefreshScreen(size: Size, version: AsciiString) returns (frame: Frame)
      requires !shouldQuit ==> size.height >= 1
      ensures Shows(frame, View(), size, version)
      ensures shouldQuit ==> frame.lines == ["Goodbye.\r"]
      ensures !shouldQuit ==> |frame.lines| == size.height - 1 && frame.cursor == cursorPosition
    {
      if shouldQuit {
        frame := Frame(["Goodbye.\r"], ORIGIN);
      } else {
        var lines := DrawRows(size, version);
        frame := Frame(lines, cursorPosition);
      }
    }

    /** `process_keypress` for a key already read. */
    method ProcessKeypress(key: Key, size: Size)
      modifies this
      ensures View() == Step(old(View()), key, size)
    {
      match key
      case Ctrl('q') => shouldQuit := true;
      case Char('h') | Char('j') | Char('k') | Char('l') | PageUp | PageDown | End | Home =>
        MoveCursor(key, size);
      case _ =>
    }

    /** `move_cursor`: work on copies of the coordinates, then store the new
        position in one assignment. The quit flag is not touched. */
    method MoveCursor(key: Key, size: Size)
      modifies this`cursorPosition
      ensures cursorPosition == Moved(old(cursorPosition), key, size)
      ensures shouldQuit == old(shouldQuit)
    {
      var x, y := cursorPosition.x, cursorPosition.y;
      var height := SatSub(size.height, 1);
      var width := SatSub(size.width, 1);
      match key {
        case Char('k') => y := SatSub(y, 1);
        case Char('j') =>
          if y < height {
            y := SatAdd(y, 1);
          }
        case Char('h') => x := SatSub(x, 1);
        case Char('l') =>
          if x < width {
            x := SatAdd(x, 1);
          }
        case PageUp => y := 0;
        case PageDown => y := height;
        case Home => x := 0;
        case End => x := width;
        case _ =>
      }
      cursorPosition := Position(x, y);
    }

    /** `run`: refresh, stop if quitting, otherwise handle the next key. The
        frames painted and the final state are those of `Session`. */
    method Run(size: Size, version: AsciiString, keys: seq<Key>) returns (frames: seq<Frame>)
      requires !shouldQuit ==> size.height >= 1
      modifies this
      ensures var t := Session(old(View()), keys, size);
              |frames| == |t| && View() == t[|t| - 1] &&
              forall i :: 0 <= i < |t| ==> Shows(frames[i], t[i], size, version)
    {
      ghost var t := Session(View(), keys, size);
      frames := [];
      var next := 0;
      while true
        invariant next <= |keys| && next < |t|
        invariant View() == t[next]
        invariant t[0].shouldQuit || size.height >= 1
        invariant |frames| == next
        invariant forall i :: 0 <= i < next ==> Shows(frames[i], t[i], size, version)
        decreases |keys| - next
      {
        var frame := RefreshScreen(size, version);
        frames := frames + [frame];
        if shouldQuit {
          break;
        }
        if next == |keys| {
          break;
        }
        ProcessKeypress(keys[next], size);
        next := next + 1;
      }
    }
  }

  /** Moves at an edge leave the cursor where it is. */
  lemma EdgeMovesStay(p: Position, size: Size)
    ensures p.y == 0 ==> Moved(p, Char('k'), size) == p
    ensures p.x == 0 ==> Moved(p, Char('h'), size) == p
    ensures p.y >= MaxY(size) ==> Moved(p, Char('j'), size) == p
    ensures p.x >= MaxX(size) ==> Moved(p, Char('l'), size) == p
  {
  }

  /** PageUp, PageDown, Home and End jump to an edge along one axis only. */
  lemma JumpKeys(p: Position, size: Size)
    ensures Moved(p, PageUp, size) == Position(p.x, 0)
    ensures Moved(p, PageDown, size) == Position(p.x, MaxY(size))
    ensures Moved(p, Home, size) == Position(0, p.y)
    ensures Moved(p, End, size) == Position(MaxX(size), p.y)
  {
  }

  /** Inside the viewport the arrow keys step by one, clamped to the viewport. */
  lemma StepKeysClamp(p: Position, size: Size)
    requires InViewport(p, size)
    ensures Moved(p, Char('k'), size).y == Max(p.y, 1) - 1
    ensures Moved(p, Char('j'), size).y == Min(p.y + 1, MaxY(size))
    ensures Moved(p, Char('h'), size).x == Max(p.x, 1) - 1
    ensures Moved(p, Char('l'), size).x == Min(p.x + 1, MaxX(size))
  {
  }

  /** A cursor that starts inside the viewport stays inside at every refresh
      of a session, whatever is typed. */
  lemma {:induction false} SessionStaysInViewport(s: State, keys: seq<Key>, size: Size)
    requires InViewport(s.cursor, size)
    ensures forall st :: st in Session(s, keys, size) ==> InViewport(st.cursor, size)
    decreases |keys|
  {
    if !s.shouldQuit && keys != [] {
      var rest := Session(Step(s, keys[0], size), keys[1..], size);
      SessionStaysInViewport(Step(s, keys[0], size), keys[1..], size);
      assert Session(s, keys, size) == [s] + rest;
    }
  }

  /** Without a Ctrl-q in the input, every key is read and the editor is still
      running when the input ends. */
  lemma {:induction false} SessionWithoutQuitKey(s: State, keys: seq<Key>, size: Size)
    requires !s.shouldQuit && Ctrl('q') !in keys
    ensures var t := Session(s, keys, size);
            |t| == |keys| + 1 && !t[|t| - 1].shouldQuit
    decreases |keys|
  {
    if keys != [] {
      assert keys[0] in keys;
      SessionWithoutQuitKey(Step(s, keys[0], size), keys[1..], size);
    }
  }

  /** A running session paints its first frame, handles the first key and
      carries on from the resulting state. */
  lemma SessionUnfold(s: State, keys: seq<Key>, size: Size)
    requires !s.shouldQuit && keys != []
    ensures Session(s, keys, size) == [s] + Session(Step(s, keys[0], size), keys[1..], size)
  {
  }

  /** The first Ctrl-q, at index `i`, ends the session: the next refresh is the
      last and finds the quit flag set, and the keys after it are never read. */
  lemma {:induction false} QuitKeyEndsSession(s: State, keys: seq<Key>, size: Size, i: nat)
    requires !s.shouldQuit
    requires i < |keys| && keys[i] == Ctrl('q')
    requires forall j :: 0 <= j < i ==> keys[j] != Ctrl('q')
    ensures Session(s, keys, size) == Session(s, keys[..i + 1], size)
    ensures var t := Session(s, keys, size);
            |t| == i + 2 && t[i + 1].shouldQuit && t[i + 1].cursor == t[i].cursor
    decreases i
  {
    var q := Step(s, keys[0], size);
    var prefix := keys[..i + 1];
    SessionUnfold(s, keys, size);
    SessionUnfold(s, prefix, size);
    if i == 0 {
      assert Session(q, keys[1..], size) == [q];
      assert Session(q, prefix[1..], size) == [q];
    } else {
      QuitKeyEndsSession(q, keys[1..], size, i - 1);
      assert prefix[1..] == keys[1..][..i];
    }
  }

  /** Once the quit flag is set, a session reads no key and paints one frame. */
  lemma QuittingReadsNothing(s: State, keys: seq<Key>, size: Size)
    requires s.shouldQuit
    ensures Session(s, keys, size) == [s]
  {
  }

  /** On an 80x24 terminal, from the top-left cell, PageDown, End and Home put
      the cursor at (0,23), (79,23) and (0,23). */
  lemma JumpScenario()
    ensures var t := Session(State(false, ORIGIN), [PageDown, End, Home], Size(80, 24));
            |t| == 4 &&
            t[1].cursor == Position(0, 23) &&
            t[2].cursor == Position(79, 23) &&
            t[3].cursor == Position(0, 23)
  {
  }

  /** On a terminal 10 cells wide, a 30-character message leaves no padding and
      the banner is cut to 10 characters starting with `~`. */
  lemma NarrowBannerScenario()
    ensures |WelcomeMessage("0.1.0")| == 30
    ensures Padding(10, "0.1.0") == 0
    ensures var b := WelcomeBanner(10, "0.1.0"); |b| == 10 && b[0] == '~'
  {
  }
}
