/**
  One tick of the renderer plugin, in schedule order: the input system
  (before the game's update), the render system (after it), then the draw
  system and, only after the draw, the command system.
 */
module Plugin {
  import opened Prelude
  import opened Cells
  import opened Grid
  import opened Terminal
  import opened Render

  /** The default depth threshold, `f32::MIN`: draw everything above the lowest depth. */
  const DEFAULT_MINZ: real := F32_MIN

  /**
    The frame a tick composes on a `c` by `r` buffer that starts from `g`:
    the render pass's writes applied in order.
   */
  function Composed(g: seq<seq<Cell>>, c: nat, r: nat, cameras: seq<Camera>, sprites: seq<Sprite>, texts: seq<Text>,
                    minz: real): (f: seq<seq<Cell>>)
    requires IsFrame(g, c, r)
    ensures IsFrame(f, c, r)
  {
    Apply(g, c, r, RenderWrites(cameras, sprites, texts, c, r, minz))
  }

  /**
    One tick. The key read this tick is handled first (a resize replaces
    the buffer with an empty one of the new size `cols` by `rows`), the
    game's sprites and texts are composed into the buffer, the whole buffer
    is drawn and cleared, and last the first queued command is honoured.
    No draw call ever follows the terminal's teardown, and the buffer is
    empty again when the tick ends.
   */
  method Tick(buf: TermBuffer, minz: real, key: Option<RawInput>, mouse: Option<MouseEvent>, cols: nat, rows: nat,
              cameras: seq<Camera>, sprites: seq<Sprite>, texts: seq<Text>, commands: seq<TermCommand>)
    returns (sent: Option<TermInput>, calls: seq<Effect>)
    requires buf.Valid()
    modifies buf
    ensures buf.Valid()
    ensures key == Some(KeyResize) ==> buf.c == cols && buf.r == rows
    ensures key != Some(KeyResize) ==> buf.c == old(buf.c) && buf.r == old(buf.r)
    ensures buf.buffer == Blank(buf.c, buf.r)
    ensures sent == (if key.Some? && key.value != KeyResize then MapEvent(key.value, mouse) else None)
    ensures calls == (if key == Some(KeyResize) then [ResizeTerm, Erase] else []) +
                     Sweep(Composed(if key == Some(KeyResize) then Blank(cols, rows) else old(buf.buffer),
                                    buf.c, buf.r, cameras, sprites, texts, minz), false) +
                     TermCommands(commands)
    ensures forall i, j :: 0 <= i < j < |calls| && calls[i] == EndWin ==> !calls[j].Put?
    ensures (AppExit in calls) <==> |commands| > 0
  {
    var eventCalls;
    sent, eventCalls := TermEvents(buf, key, mouse, cols, rows);
    ghost var start := buf.buffer;
    Render.Render(buf, minz, cameras, sprites, texts);
    var drawCalls := TermDraw(buf);
    var commandCalls := TermCommands(commands);
    calls := eventCalls + drawCalls + commandCalls;

    TeardownLast(eventCalls, Composed(start, buf.c, buf.r, cameras, sprites, texts, minz), commands);
  }

  /**
    The trace of a tick (the input system's calls, a flush, then the command
    system's calls) never draws after the terminal is torn down, and asks the
    application to exit exactly when a command was queued.
   */
  lemma TeardownLast(pre: seq<Effect>, g: seq<seq<Cell>>, commands: seq<TermCommand>)
    requires pre == [] || pre == [ResizeTerm, Erase]
    ensures var calls := pre + Sweep(g, false) + TermCommands(commands);
            (forall i, j :: 0 <= i < j < |calls| && calls[i] == EndWin ==> !calls[j].Put?) &&
            ((AppExit in calls) <==> |commands| > 0)
  {
    var drawCalls, commandCalls := Sweep(g, false), TermCommands(commands);
    var calls := pre + drawCalls + commandCalls;
    assert forall k :: 0 <= k < |pre| ==> calls[k] == pre[k] && calls[k] != EndWin && calls[k] != AppExit;
    assert forall k :: |pre| <= k < |pre| + |drawCalls| ==> calls[k] == drawCalls[k - |pre|] && calls[k].Put?;
    assert forall k :: |pre| + |drawCalls| <= k < |calls| ==>
             calls[k] == commandCalls[k - |pre| - |drawCalls|] && !calls[k].Put?;
  }

  /**
    A tick that starts from an empty buffer (every tick does, since the
    draw clears it and the buffer starts empty) draws exactly one call per
    cell, and a tick with nothing to draw draws blanks everywhere.
   */
  lemma {:induction false} FrameIsFresh(c: nat, r: nat, cameras: seq<Camera>, sprites: seq<Sprite>, texts: seq<Text>,
                                        minz: real)
    ensures |Sweep(Composed(Blank(c, r), c, r, cameras, sprites, texts, minz), false)| == r * c
    ensures Composed(Blank(c, r), c, r, cameras, [], [], minz) == Blank(c, r)
  {
    SweepLength(Composed(Blank(c, r), c, r, cameras, sprites, texts, minz), r, c, false);
    var offset := CameraOffset(cameras, c, r);
    assert RenderWrites(cameras, [], [], c, r, minz) == [];
  }

  /**
    The default gate hides only contributions at the lowest depth, the depth
    of an empty cell: any sprite above it is written exactly when its cell is
    on screen, and then always replaces an empty cell.
   */
  lemma DefaultGateHidesOnlyEmptyDepth(s: Sprite, offset: (int, int), c: nat, r: nat)
    requires s.z > DEFAULT_MINZ
    ensures var p := Project(s.x, s.y, offset);
            SpriteWrites(s, offset, c, r, DEFAULT_MINZ) != [] <==> 0 <= p.0 < c && 0 <= p.1 < r
    ensures Deeper(CLEAR, Cell(s.glyph, s.z)) == Cell(s.glyph, s.z)
  {
  }

  /** After a resize to 78 by 24 the next flush makes exactly 78 * 24 draw calls. */
  lemma ExampleResizeFlush(cameras: seq<Camera>, sprites: seq<Sprite>, texts: seq<Text>, minz: real)
    ensures |Sweep(Composed(Blank(78, 24), 78, 24, cameras, sprites, texts, minz), false)| == 1872
  {
    FrameIsFresh(78, 24, cameras, sprites, texts, minz);
  }
}
