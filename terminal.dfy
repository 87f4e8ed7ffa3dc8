/**
  The terminal side of the renderer: the frame buffer resource, the per-tick
  input system (one key per tick, resize handling), the draw system that
  flushes and clears the buffer, the command system, and the mapping from
  curses key codes to normalised input events.
 */
module Terminal {
  import opened Prelude
  import opened Cells
  import opened Grid

  /** A grid of `rows` rows of `cols` cells each, indexed `g[row][col]`. */
  predicate IsFrame(g: seq<seq<Cell>>, cols: nat, rows: nat)
  {
    IsGrid(g, rows, cols)
  }

  /** An empty frame: every cell is `CLEAR`. */
  function Blank(cols: nat, rows: nat): (g: seq<seq<Cell>>)
    ensures IsFrame(g, cols, rows)
    ensures forall row, col :: 0 <= row < rows && 0 <= col < cols ==> g[row][col] == CLEAR
  {
    Filled(rows, cols, CLEAR)
  }

  /**
    The frame after writing contribution `w` at (`col`, `row`): that cell
    passes through the strict depth test, every other cell and the shape are
    unchanged.
   */
  function WriteCell(g: seq<seq<Cell>>, col: nat, row: nat, w: Cell): (g': seq<seq<Cell>>)
    requires row < |g| && col < |g[row]|
    ensures |g'| == |g| && forall i :: 0 <= i < |g| ==> |g'[i]| == |g[i]|
    ensures g'[row][col] == (if w.depth > g[row][col].depth then w else g[row][col])
    ensures forall i, j :: 0 <= i < |g| && 0 <= j < |g[i]| && (i != row || j != col) ==> g'[i][j] == g[i][j]
  {
    g[row := g[row][col := Deeper(g[row][col], w)]]
  }

  /** The frame buffer resource (`TermBuffer`): `r` rows of `c` cells. */
  class TermBuffer {
    var buffer: seq<seq<Cell>>
    var c: nat
    var r: nat

    ghost predicate Valid()
      reads this
    {
      IsFrame(buffer, c, r)
    }

    /** A buffer of `r` rows of `c` empty cells. */
    constructor (c: nat, r: nat)
      ensures Valid()
      ensures this.c == c && this.r == r && Size() == (c, r)
      ensures buffer == Blank(c, r)
    {
      buffer := Blank(c, r);
      this.c := c;
      this.r := r;
    }

    /** The buffer's dimensions, columns first. */
    function Size(): (s: (nat, nat))
      requires Valid()
      reads this
      ensures |buffer| == s.1 && forall i :: 0 <= i < |buffer| ==> |buffer[i]| == s.0
    {
      (c, r)
    }

    /**
      Writes glyph `v` at depth `z` into cell (`col`, `row`) when `z` is
      strictly deeper than what the cell holds. Indexing outside the buffer
      panics in the source, hence the bounds precondition.
     */
    method Write(col: nat, row: nat, v: char, z: real)
      requires Valid() && col < c && row < r
      modifies this`buffer
      ensures Valid()
      ensures buffer == WriteCell(old(buffer), col, row, Cell(v, z))
    {
      if z > buffer[row][col].depth {
        buffer := buffer[row := buffer[row][col := Cell(v, z)]];
      } else {
        assert buffer[row][col := buffer[row][col]] == buffer[row];
        assert buffer[row := buffer[row]] == buffer;
      }
    }
  }

  /**
    The input system: reads at most one key per tick. A resize key sends no
    event, tells the driver to re-read its geometry, erases the screen and
    replaces the buffer with an empty one of the new size (`cols`, `rows`,
    as the driver reports after the resize). Any other key is mapped and
    sent, and the buffer is left alone.
   */
  method TermEvents(buf: TermBuffer, key: Option<RawInput>, mouse: Option<MouseEvent>, cols: nat, rows: nat)
    returns (sent: Option<TermInput>, calls: seq<Effect>)
    requires buf.Valid()
    modifies buf
    ensures buf.Valid()
    ensures key == Some(KeyResize) ==>
              sent == None && calls == [ResizeTerm, Erase] &&
              buf.c == cols && buf.r == rows && buf.buffer == Blank(cols, rows)
    ensures key != Some(KeyResize) ==>
              calls == [] && buf.c == old(buf.c) && buf.r == old(buf.r) && buf.buffer == old(buf.buffer) &&
              sent == (if key.Some? then MapEvent(key.value, mouse) else None)
  {
    var resize := false;
    sent := None;
    calls := [];
    if key.Some? {
      match key.value {
        case KeyResize => resize := true;
        case _ => sent := MapEvent(key.value, mouse);
      }
    }
    if resize {
      calls := [ResizeTerm, Erase];
      var replacement := new TermBuffer(cols, rows);
      buf.buffer, buf.c, buf.r := replacement.buffer, replacement.c, replacement.r;
    }
  }

  /**
    The draw system: emits every cell's glyph in row-major order and resets
    the cell to `CLEAR` right after, so the buffer ends empty with its shape
    unchanged.
   */
  method TermDraw(buf: TermBuffer) returns (calls: seq<Effect>)
    requires buf.Valid()
    modifies buf`buffer
    ensures buf.Valid()
    ensures calls == Sweep(old(buf.buffer), false)
    ensures buf.buffer == Blank(buf.c, buf.r)
  {
    ghost var g0 := buf.buffer;
    calls := [];
    var row := 0;
    while row < buf.r
      invariant 0 <= row <= buf.r
      invariant buf.Valid()
      invariant calls == Sweep(g0[..row], false)
      invariant forall i, j :: 0 <= i < row && 0 <= j < buf.c ==> buf.buffer[i][j] == CLEAR
      invariant forall i :: row <= i < buf.r ==> buf.buffer[i] == g0[i]
    {
      var col := 0;
      while col < buf.c
        invariant 0 <= col <= buf.c
        invariant buf.Valid()
        invariant calls == Sweep(g0[..row], false) + Line(row, g0[row][..col], false)
        invariant forall i, j :: 0 <= i < row && 0 <= j < buf.c ==> buf.buffer[i][j] == CLEAR
        invariant forall j :: 0 <= j < col ==> buf.buffer[row][j] == CLEAR
        invariant forall j :: col <= j < buf.c ==> buf.buffer[row][j] == g0[row][j]
        invariant forall i :: row < i < buf.r ==> buf.buffer[i] == g0[i]
      {
        LineSnoc(row, g0[row][..col], g0[row][col], false);
        assert g0[row][..col + 1] == g0[row][..col] + [g0[row][col]];
        calls := calls + [Put(row, col, buf.buffer[row][col].glyph)];
        buf.buffer := buf.buffer[row := buf.buffer[row][col := CLEAR]];
        col := col + 1;
      }
      assert g0[row][..buf.c] == g0[row];
      SweepSnoc(g0[..row], g0[row], false);
      assert g0[..row] + [g0[row]] == g0[..row + 1];
      row := row + 1;
    }
    assert g0[..buf.r] == g0;
    FilledUnique(buf.buffer, buf.r, buf.c, CLEAR);
  }

  /**
    The command system: only the first queued command is read. An `Exit`
    shows the cursor, restores the terminal and asks the application to exit.
   */
  function TermCommands(queue: seq<TermCommand>): (calls: seq<Effect>)
    ensures (AppExit in calls) <==> |queue| > 0
    ensures multiset(calls)[AppExit] == (if |queue| > 0 then 1 else 0)
    ensures forall i :: 0 <= i < |calls| ==> !calls[i].Put?
    ensures forall i :: 0 <= i < |calls| && calls[i] == AppExit ==> i == |calls| - 1 && EndWin in calls[..i]
    ensures |queue| == 0 ==> calls == []
    ensures |queue| > 0 ==> ShowCursor in calls && EndWin in calls
    ensures forall i :: 0 <= i < |calls| && calls[i] == EndWin ==> ShowCursor in calls[..i]
  {
    if |queue| == 0 then []
    else
      match queue[0]
      case Exit => [ShowCursor, EndWin, AppExit]
  }

  /**
    Maps a curses key code to a normalised input event. Space, newline, tab
    and escape become named keys, any other character is passed through, the
    named keys map one to one, a mouse key becomes a mouse event when the
    mouse query succeeded, and everything else produces nothing.
   */
  function MapEvent(key: RawInput, mouse: Option<MouseEvent>): (sent: Option<TermInput>)
    ensures key.Char? ==> sent.Some?
    ensures sent.Some? && sent.value.Character? ==> key == Char(sent.value.ch) && !IsNamedChar(key.c)
    ensures key.KeyMouse? ==> (sent.Some? <==> mouse.Some?)
    ensures key.Unknown? || key.KeyResize? ==> sent == None
  {
    match key
    case KeyBackspace => Some(BackSpace)
    case Char(' ') => Some(SpaceBar)
    case Char('\n') => Some(Enter)
    case Char('\t') => Some(Tab)
    case Char('\U{1b}') => Some(Escape)
    case Char(c) => Some(Character(c))
    case KeyLeft => Some(Left)
    case KeyRight => Some(Right)
    case KeyUp => Some(Up)
    case KeyDown => Some(Down)
    case KeyHome => Some(Home)
    case KeyEnd => Some(End)
    case KeyIC => Some(Insert)
    case KeyDC => Some(Delete)
    case KeyPPage => Some(PageUp)
    case KeyNPage => Some(PageDown)
    case KeyF1 => Some(F1)
    case KeyF2 => Some(F2)
    case KeyF3 => Some(F3)
    case KeyF4 => Some(F4)
    case KeyF5 => Some(F5)
    case KeyF6 => Some(F6)
    case KeyF7 => Some(F7)
    case KeyF8 => Some(F8)
    case KeyF9 => Some(F9)
    case KeyF10 => Some(F10)
    case KeyF11 => Some(F11)
    case KeyF12 => Some(F12)
    case KeyMouse =>
      (match mouse
       case Some(m) => Some(Mouse(m.x, m.y))
       case None => None)
    case _ => None
  }

  /** The four characters that arrive as named keys rather than as characters. */
  predicate IsNamedChar(c: char)
  {
    c == ' ' || c == '\n' || c == '\t' || c == ESC
  }

  /** The key code that produces event `e` (a reference inverse of `MapEvent`). */
  function KeyFor(e: TermInput): RawInput
  {
    match e
    case Mouse(_, _) => KeyMouse
    case Character(c) => Char(c)
    case Left => KeyLeft
    case Right => KeyRight
    case Up => KeyUp
    case Down => KeyDown
    case SpaceBar => Char(' ')
    case BackSpace => KeyBackspace
    case Enter => Char('\n')
    case Tab => Char('\t')
    case Escape => Char(ESC)
    case Home => KeyHome
    case End => KeyEnd
    case Insert => KeyIC
    case Delete => KeyDC
    case PageUp => KeyPPage
    case PageDown => KeyNPage
    case F1 => KeyF1
    case F2 => KeyF2
    case F3 => KeyF3
    case F4 => KeyF4
    case F5 => KeyF5
    case F6 => KeyF6
    case F7 => KeyF7
    case F8 => KeyF8
    case F9 => KeyF9
    case F10 => KeyF10
    case F11 => KeyF11
    case F12 => KeyF12
  }

  /** The events the mapping can produce: all of them except a named character sent as `Character`. */
  predicate Producible(e: TermInput)
  {
    !(e.Character? && IsNamedChar(e.ch))
  }

  /** The special characters always map to their named key, never to `Character`. */
  lemma NamedCharsMapToNamedKeys(mouse: Option<MouseEvent>)
    ensures MapEvent(Char(' '), mouse) == Some(SpaceBar)
    ensures MapEvent(Char('\n'), mouse) == Some(Enter)
    ensures MapEvent(Char('\t'), mouse) == Some(Tab)
    ensures MapEvent(Char(ESC), mouse) == Some(Escape)
  {
  }

  /** Every producible event is produced by its key (a mouse event by a successful mouse query). */
  lemma MapEventOnto(e: TermInput)
    requires Producible(e)
    ensures MapEvent(KeyFor(e), if e.Mouse? then Some(MouseEvent(e.mx, e.my)) else None) == Some(e)
  {
  }

  /**
    The mapping loses nothing: an event other than a mouse event determines
    the key that produced it, so distinct keys never produce the same event.
   */
  lemma MapEventInjective(key: RawInput, mouse: Option<MouseEvent>)
    requires MapEvent(key, mouse).Some? && !MapEvent(key, mouse).value.Mouse?
    ensures KeyFor(MapEvent(key, mouse).value) == key
    ensures Producible(MapEvent(key, mouse).value)
  {
  }
}
